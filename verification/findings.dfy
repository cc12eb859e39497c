/** Two places where registration as written does not deliver what the
    user module evidently intends, each shown on the model of the code as
    written and contrasted with `UserService.Register`. */
module Findings {
  import opened Users
  import opened Repository
  import opened UserService

  /** The duplicate check compares usernames only. A second member who picks
      a new name but an existing student number passes it, and the save
      then writes over the existing member's row, password included. */
  lemma CreateUserOverwritesMember(store: Store, dto: CreateUserDto, i: int)
    requires !HasName(store, dto.stuName)
    requires dto.password == dto.confirmPassword
    requires 0 <= i < |store| && store[i].student_number == dto.stuNum
    ensures CreateUser(store, dto).0 == Registered
    ensures |CreateUser(store, dto).1| == |store|
    ensures CreateUser(store, dto).1[i] == NewUser(dto, dto.password)
    ensures CreateUser(store, dto).1[i].username != store[i].username
  {
    assert HasKey(store, dto.stuNum);
    assert store[i].username != dto.stuName;
  }

  /** The concrete case: Alice holds 1001; Bob registers with 1001 and is
      told registration succeeded, and Alice's row is gone. The corrected
      registration refuses Bob and keeps Alice. */
  lemma OverwriteExample(hash: string -> string)
    ensures var alice := User("Alice", "alice@example.com", 1001, "F", "2021", "pw-a");
            var bob := CreateUserDto("Bob", "pw-b", "pw-b", "bob@example.com", 1001, "M", "2021");
            && CreateUser([alice], bob) == (Registered, [NewUser(bob, "pw-b")])
            && Register([alice], bob, hash) == (UserExists, [alice])
  {
    var alice := User("Alice", "alice@example.com", 1001, "F", "2021", "pw-a");
    var bob := CreateUserDto("Bob", "pw-b", "pw-b", "bob@example.com", 1001, "M", "2021");
    assert [alice][0].username != bob.stuName;
    assert HasKey([alice], 1001);
    CreateUserOverwritesMember([alice], bob, 0);
    var after := CreateUser([alice], bob).1;
    assert after == [NewUser(bob, "pw-b")] by {
      assert |after| == 1 && after[0] == NewUser(bob, "pw-b");
    }
    assert Register([alice], bob, hash).0 == UserExists;
  }

  /** Registration stores the password in clear, while login checks it with
      bcrypt, whose comparison refuses any stored value that is not a
      60-character digest. So a member registered through `createUser`
      with a password of any other length can never log in with it. */
  lemma RegisteredUserCannotLogIn(
    store: Store,
    dto: CreateUserDto,
    compare: (string, string) -> bool,
    sign: string -> string)
    requires forall p, stored :: |stored| != 60 ==> !compare(p, stored)
    requires !HasName(store, dto.stuName) && dto.password == dto.confirmPassword
    requires |dto.password| != 60
    ensures Login(CreateUser(store, dto).1, LoginDto(dto.stuNum, dto.password), compare, sign) == WrongPassword
  {
    assert CreateUser(store, dto).0.Registered?;
    var after := CreateUser(store, dto).1;
    assert FindOne(after, KeyIs(dto.stuNum)) == Some(NewUser(dto, dto.password));
    assert !compare(dto.password, dto.password);
  }
}
