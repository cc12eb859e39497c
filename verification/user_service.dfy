/** The user service: login, registration, paged and exact lookups,
    deletion and update, each a pure function of the store. Password
    comparison (bcrypt) and token signing (JWT) are parameters: the model
    assumes nothing about them beyond what a contract says it needs. */
module UserService {
  import opened Users
  import opened Paging
  import opened Repository
  import Messages

  datatype LoginDto = LoginDto(stuNum: int, password: string)

  datatype CreateUserDto = CreateUserDto(
    stuName: string,
    password: string,
    confirmPassword: string,
    email: string,
    stuNum: int,
    sex: string,
    grade: string)

  /** The three ways login ends. */
  datatype LoginOutcome = UserNotFound | WrongPassword | Signed(token: string) {
    /** The string the service hands back to its caller. */
    function Message(): string {
      match this
      case UserNotFound => Messages.UserNotFound
      case WrongPassword => Messages.WrongPassword
      case Signed(token) => token
    }
  }

  /** The three ways registration ends. */
  datatype RegisterOutcome = UserExists | PasswordMismatch | Registered {
    function Message(): string {
      match this
      case UserExists => Messages.UserExists
      case PasswordMismatch => Messages.PasswordMismatch
      case Registered => Messages.Registered
    }
  }

  /** The row `findOne({ where: { student_number: k } })` returns. */
  function KeyHolder(s: Store, k: int): (u: User)
    requires HasKey(s, k)
    ensures u in s && u.student_number == k
  {
    FindOne(s, KeyIs(k)).value
  }

  /** Under the uniqueness invariant the looked-up row is the only row
      with that student number. */
  lemma KeyHolderIsUnique(s: Store, k: int, i: int)
    requires UniqueKeys(s)
    requires 0 <= i < |s| && s[i].student_number == k
    ensures KeyHolder(s, k) == s[i]
  {
    var j :| 0 <= j < |s| && s[j] == KeyHolder(s, k);
    if j < i {
      assert s[j].student_number != s[i].student_number;
    } else if i < j {
      assert s[i].student_number != s[j].student_number;
    }
  }

  /** `login`: look the user up by student number, compare the password
      against the stored one, and sign a token over the username. The
      store is only read. */
  function Login(
    store: Store,
    dto: LoginDto,
    compare: (string, string) -> bool,
    sign: string -> string): (r: LoginOutcome)
    ensures r.UserNotFound? <==> !HasKey(store, dto.stuNum)
    ensures r.WrongPassword? <==>
              HasKey(store, dto.stuNum) && !compare(dto.password, KeyHolder(store, dto.stuNum).password)
    ensures r.Signed? ==>
              && HasKey(store, dto.stuNum)
              && compare(dto.password, KeyHolder(store, dto.stuNum).password)
              && r.token == sign(KeyHolder(store, dto.stuNum).username)
  {
    match FindOne(store, KeyIs(dto.stuNum))
    case None => UserNotFound
    case Some(found) =>
      if !compare(dto.password, found.password) then WrongPassword
      else Signed(sign(found.username))
  }

  /** The row registration writes for `dto`, holding `password`. */
  function NewUser(dto: CreateUserDto, password: string): User {
    User(dto.stuName, dto.email, dto.stuNum, dto.sex, dto.grade, password)
  }

  /** `createUser` as written: the duplicate check looks at the username,
      then the confirmation is compared, then the row is saved with the
      password exactly as supplied. The save goes through the repository,
      so a row already holding the student number is overwritten. */
  function CreateUser(store: Store, dto: CreateUserDto): (r: (RegisterOutcome, Store))
    ensures r.0.UserExists? <==> HasName(store, dto.stuName)
    ensures r.0.PasswordMismatch? <==>
              !HasName(store, dto.stuName) && dto.password != dto.confirmPassword
    ensures !r.0.Registered? ==> r.1 == store
    ensures r.0.Registered? && !HasKey(store, dto.stuNum) ==>
              r.1 == store + [NewUser(dto, dto.password)]
    ensures r.0.Registered? && HasKey(store, dto.stuNum) ==>
              |r.1| == |store| &&
              forall i :: 0 <= i < |store| ==>
                r.1[i] == (if store[i].student_number == dto.stuNum then NewUser(dto, dto.password) else store[i])
    ensures r.0.Registered? ==> FindOne(r.1, KeyIs(dto.stuNum)) == Some(NewUser(dto, dto.password))
  {
    var found := FindOne(store, NameIs(dto.stuName));
    if found.Some? && found.value.username == dto.stuName then (UserExists, store)
    else if dto.password != dto.confirmPassword then (PasswordMismatch, store)
    else (Registered, Save(store, NewUser(dto, dto.password)))
  }

  /** Registration with the duplicate check on the student number, the
      declared unique key, and the password stored as `hash` of it. A new
      member is always appended and never replaces one. */
  function Register(store: Store, dto: CreateUserDto, hash: string -> string): (r: (RegisterOutcome, Store))
    ensures r.0.UserExists? <==> HasKey(store, dto.stuNum)
    ensures r.0.PasswordMismatch? <==>
              !HasKey(store, dto.stuNum) && dto.password != dto.confirmPassword
    ensures !r.0.Registered? ==> r.1 == store
    ensures r.0.Registered? ==>
              && |r.1| == |store| + 1
              && r.1[..|store|] == store
              && r.1[|store|] == NewUser(dto, hash(dto.password))
    ensures UniqueKeys(store) ==> UniqueKeys(r.1)
  {
    if FindOne(store, KeyIs(dto.stuNum)).Some? then (UserExists, store)
    else if dto.password != dto.confirmPassword then (PasswordMismatch, store)
    else
      var after := Save(store, NewUser(dto, hash(dto.password)));
      assert after[..|store|] == store;
      (Registered, after)
  }

  /** A repeated registration of the same username is refused, and the
      store keeps the first registration's row. */
  lemma CreateUserRejectsRepeat(store: Store, dto: CreateUserDto)
    requires !HasName(store, dto.stuName) && dto.password == dto.confirmPassword
    ensures CreateUser(CreateUser(store, dto).1, dto) == (UserExists, CreateUser(store, dto).1)
  {
    var after := CreateUser(store, dto).1;
    var u := NewUser(dto, dto.password);
    var i :| 0 <= i < |after| && after[i] == u;
    assert after[i].username == dto.stuName;
  }

  /** Registering a student number that is already taken is refused,
      whatever the rest of the second request says. */
  lemma RegisterRejectsRepeatedNumber(store: Store, dto: CreateUserDto, again: CreateUserDto, hash: string -> string)
    requires Register(store, dto, hash).0.Registered?
    requires again.stuNum == dto.stuNum
    ensures Register(Register(store, dto, hash).1, again, hash) == (UserExists, Register(store, dto, hash).1)
  {
    var after := Register(store, dto, hash).1;
    assert after[|store|].student_number == again.stuNum;
  }

  /** A member registered with a password can then log in with it: the
      stored digest matches whenever the comparison accepts every password
      against its own digest. */
  lemma RegisterThenLogin(
    store: Store,
    dto: CreateUserDto,
    hash: string -> string,
    compare: (string, string) -> bool,
    sign: string -> string)
    requires forall p :: compare(p, hash(p))
    requires Register(store, dto, hash).0.Registered?
    ensures Login(Register(store, dto, hash).1, LoginDto(dto.stuNum, dto.password), compare, sign)
            == Signed(sign(dto.stuName))
  {
    var after := Register(store, dto, hash).1;
    var u := NewUser(dto, hash(dto.password));
    assert after == Save(store, u);
    assert FindOne(after, KeyIs(dto.stuNum)) == Some(u);
    assert compare(dto.password, hash(dto.password));
  }

  /** `findAll(pageNum, pageCount)`: `pageNum` rows per page, page number
      `pageCount`, read through the repository's offset/limit window. */
  function FindAll(store: Store, pageNum: int, pageCount: int): (r: Reply<seq<User>>)
    ensures r.Rejected? <==> pageNum < 0 || (pageNum > 0 && pageCount < 1)
    ensures pageNum >= 1 && pageCount >= 1 ==> r == Resolved(Page(store, pageNum, pageCount))
    ensures pageNum == 0 ==> r == Resolved(store)
  {
    SkipSign(pageNum, pageCount);
    assert pageNum >= 1 && pageCount >= 1 ==>
             Window(store, (pageCount - 1) * pageNum, pageNum) == Resolved(Page(store, pageNum, pageCount)) by {
      if pageNum >= 1 && pageCount >= 1 {
        WindowIsPage(store, pageNum, pageCount);
      }
    }
    assert pageNum == 0 ==> Window(store, (pageCount - 1) * pageNum, pageNum) == Resolved(store) by {
      assert store[0..|store|] == store;
    }
    Window(store, (pageCount - 1) * pageNum, pageNum)
  }

  /** The sign of the service's skip, `(pageCount - 1) * pageNum`. */
  lemma SkipSign(pageNum: int, pageCount: int)
    ensures pageNum == 0 ==> (pageCount - 1) * pageNum == 0
    ensures pageNum > 0 && pageCount >= 1 ==> (pageCount - 1) * pageNum >= 0
    ensures pageNum > 0 && pageCount < 1 ==> (pageCount - 1) * pageNum < 0
  {
    if pageNum > 0 && pageCount < 1 {
      assert (pageCount - 1) * pageNum <= -pageNum;
    }
  }

  /** `findByName(username, pageNum, pageCount)`: the same window over the
      rows whose username equals the argument exactly. */
  function FindByName(store: Store, name: string, pageNum: int, pageCount: int): (r: Reply<seq<User>>)
    ensures r.Rejected? <==> pageNum < 0 || (pageNum > 0 && pageCount < 1)
    ensures r.Resolved? ==> forall u :: u in r.value ==> u in store && u.username == name
    ensures r.Resolved? && pageNum >= 1 ==> |r.value| <= pageNum
    ensures pageNum >= 1 && pageCount >= 1 ==>
              r == Resolved(Page(Filter(store, NameIs(name)), pageNum, pageCount))
    ensures pageNum == 0 ==> r == Resolved(Filter(store, NameIs(name)))
  {
    var named := Filter(store, NameIs(name));
    SkipSign(pageNum, pageCount);
    assert pageNum >= 1 && pageCount >= 1 ==>
             Window(named, (pageCount - 1) * pageNum, pageNum) == Resolved(Page(named, pageNum, pageCount)) by {
      if pageNum >= 1 && pageCount >= 1 {
        WindowIsPage(named, pageNum, pageCount);
      }
    }
    assert pageNum == 0 ==> Window(named, (pageCount - 1) * pageNum, pageNum) == Resolved(named) by {
      assert named[0..|named|] == named;
    }
    var r := Window(named, (pageCount - 1) * pageNum, pageNum);
    assert r.Resolved? ==> forall u :: u in r.value ==> u in named by {
      if r.Resolved? {
        forall u | u in r.value
          ensures u in named
        {
          var i :| 0 <= i < |r.value| && r.value[i] == u;
        }
      }
    }
    r
  }

  /** Reading enough pages of a name search in order yields every user with
      that name, in store order, each once. */
  lemma NamePagesCoverMatches(store: Store, name: string, pageNum: nat, k: nat)
    requires pageNum >= 1
    requires k * pageNum >= |Filter(store, NameIs(name))|
    ensures Pages(Filter(store, NameIs(name)), pageNum, k) == Filter(store, NameIs(name))
  {
    var named := Filter(store, NameIs(name));
    PagesArePrefix(named, pageNum, k);
    assert named[..|named|] == named;
  }

  /** `findByStuNum`: exact lookup by student number. */
  function FindByStuNum(store: Store, k: int): (r: Option<User>)
    ensures r.None? <==> !HasKey(store, k)
    ensures r.Some? ==> r.value in store && r.value.student_number == k
    ensures UniqueKeys(store) ==>
              forall i :: 0 <= i < |store| && store[i].student_number == k ==> r == Some(store[i])
  {
    var r := FindOne(store, KeyIs(k));
    assert UniqueKeys(store) ==>
             forall i :: 0 <= i < |store| && store[i].student_number == k ==> r == Some(store[i]) by {
      if UniqueKeys(store) {
        forall i | 0 <= i < |store| && store[i].student_number == k
          ensures r == Some(store[i])
        {
          KeyHolderIsUnique(store, k, i);
        }
      }
    }
    r
  }

  /** `delUser`: true exactly when the delete affected a row. */
  function DelUser(store: Store, k: int): (r: (bool, Store))
    ensures r.0 <==> HasKey(store, k)
    ensures !HasKey(r.1, k)
    ensures forall u :: u in r.1 <==> u in store && u.student_number != k
    ensures |store| - |r.1| == Count(store, KeyIs(k))
  {
    var (affected, rest) := Delete(store, k);
    (affected > 0, rest)
  }

  /** Under the uniqueness invariant, a successful delete removes exactly
      one row, and the invariant still holds afterwards. */
  lemma DelUserRemovesOne(store: Store, k: int)
    requires UniqueKeys(store)
    ensures HasKey(store, k) ==> |DelUser(store, k).1| == |store| - 1
    ensures !HasKey(store, k) ==> DelUser(store, k).1 == store
    ensures UniqueKeys(DelUser(store, k).1)
  {
    FilterUniqueKeys(store, k);
  }

  lemma {:induction false} FilterUniqueKeys(s: Store, k: int)
    requires UniqueKeys(s)
    ensures HasKey(s, k) ==> |Filter(s, KeyIsNot(k))| == |s| - 1
    ensures !HasKey(s, k) ==> Filter(s, KeyIsNot(k)) == s
    ensures UniqueKeys(Filter(s, KeyIsNot(k)))
  {
    if |s| > 0 {
      var tail := s[1..];
      UniqueKeysTail(s);
      FilterUniqueKeys(tail, k);
      HasKeyCons(s, k);
      var rest := Filter(tail, KeyIsNot(k));
      if s[0].student_number == k {
        NoOtherHolder(s);
      } else {
        forall j | 0 <= j < |rest|
          ensures rest[j].student_number != s[0].student_number
        {
          assert rest[j] in rest;
          var i :| 0 <= i < |tail| && tail[i] == rest[j];
          assert tail[i] == s[i + 1];
        }
        UniqueKeysCons(s[0], rest);
      }
    }
  }

  lemma UniqueKeysTail(s: Store)
    requires UniqueKeys(s) && |s| > 0
    ensures UniqueKeys(s[1..])
  {
    var tail := s[1..];
    forall i, j | 0 <= i < j < |tail|
      ensures tail[i].student_number != tail[j].student_number
    {
      assert tail[i] == s[i + 1] && tail[j] == s[j + 1];
    }
  }

  lemma UniqueKeysCons(x: User, t: Store)
    requires UniqueKeys(t)
    requires forall j :: 0 <= j < |t| ==> t[j].student_number != x.student_number
    ensures UniqueKeys([x] + t)
  {
    var r := [x] + t;
    forall i, j | 0 <= i < j < |r|
      ensures r[i].student_number != r[j].student_number
    {
      assert r[j] == t[j - 1];
      if i > 0 {
        assert r[i] == t[i - 1];
      }
    }
  }

  lemma HasKeyCons(s: Store, k: int)
    requires |s| > 0
    ensures HasKey(s, k) <==> s[0].student_number == k || HasKey(s[1..], k)
  {
    if HasKey(s, k) {
      var i :| 0 <= i < |s| && s[i].student_number == k;
      if i > 0 {
        assert s[1..][i - 1].student_number == k;
      }
    }
    if HasKey(s[1..], k) {
      var i :| 0 <= i < |s[1..]| && s[1..][i].student_number == k;
      assert s[i + 1].student_number == k;
    }
  }

  /** With unique keys, the first row's student number appears nowhere else. */
  lemma NoOtherHolder(s: Store)
    requires UniqueKeys(s) && |s| > 0
    ensures !HasKey(s[1..], s[0].student_number)
  {
    forall i | 0 <= i < |s[1..]|
      ensures s[1..][i].student_number != s[0].student_number
    {
      assert s[1..][i] == s[i + 1];
    }
  }

  /** The rows `delUser` keeps stay in store order with their multiplicity:
      a single row survives exactly when its key differs, and deleting from
      a concatenation deletes from each part. */
  lemma DelUserKeepsOrder(a: Store, b: Store, u: User, k: int)
    ensures DelUser([u], k).1 == (if u.student_number == k then [] else [u])
    ensures DelUser(a + b, k).1 == DelUser(a, k).1 + DelUser(b, k).1
  {
    DeleteRowByRow(a, b, u, k);
  }

  /** Deleting the same student number twice: the second call finds nothing
      and changes nothing. */
  lemma DelUserIdempotent(store: Store, k: int)
    ensures DelUser(DelUser(store, k).1, k) == (false, DelUser(store, k).1)
  {
    var once := DelUser(store, k).1;
    FilterKeepsAll(once, KeyIsNot(k));
  }

  /** Filtering rows that all pass changes nothing. */
  lemma {:induction false} FilterKeepsAll<T(!new)>(s: seq<T>, keep: T -> bool)
    requires forall i :: 0 <= i < |s| ==> keep(s[i])
    ensures Filter(s, keep) == s
  {
    if |s| > 0 {
      FilterKeepsAll(s[1..], keep);
    }
  }

  /** `updateUser`: true exactly when the update matched a row. Rows with
      another student number keep their value and position. The call
      rejects when the patch is empty or moves a row onto a taken key. */
  function UpdateUser(store: Store, k: int, patch: UserPatch): (r: Reply<(bool, Store)>)
    ensures r == Rejected(UpdateValuesMissing) <==> patch.IsEmpty()
    ensures r == Rejected(DuplicateKey) <==> !patch.IsEmpty() && MovesOntoTakenKey(store, k, patch)
    ensures r.Resolved? <==> !patch.IsEmpty() && !MovesOntoTakenKey(store, k, patch)
    ensures r.Resolved? ==> (r.value.0 <==> HasKey(store, k))
    ensures r.Resolved? ==>
              && |r.value.1| == |store|
              && (forall i :: 0 <= i < |store| && store[i].student_number != k ==> r.value.1[i] == store[i])
              && (forall i :: 0 <= i < |store| && store[i].student_number == k ==>
                    r.value.1[i] == patch.ApplyTo(store[i]))
  {
    match Update(store, k, patch)
    case Rejected(e) => Rejected(e)
    case Resolved((affected, rows)) => Resolved((affected > 0, rows))
  }

  /** Applying the same update twice leaves the store as applying it once:
      the second call is accepted and changes nothing. */
  lemma UpdateUserIdempotent(store: Store, k: int, patch: UserPatch)
    requires !patch.IsEmpty() && !MovesOntoTakenKey(store, k, patch)
    ensures UpdateUser(UpdateUser(store, k, patch).value.1, k, patch).Resolved?
    ensures UpdateUser(UpdateUser(store, k, patch).value.1, k, patch).value.1 == UpdateUser(store, k, patch).value.1
  {
    var once := UpdateUser(store, k, patch).value.1;
    assert !MovesOntoTakenKey(once, k, patch) by {
      if patch.student_number.Some? && patch.student_number.value != k {
        forall i | 0 <= i < |once|
          ensures once[i].student_number != k
        {
          if store[i].student_number == k {
            assert once[i] == patch.ApplyTo(store[i]);
          }
        }
      }
    }
    var twice := UpdateUser(once, k, patch).value.1;
    forall i | 0 <= i < |store|
      ensures twice[i] == once[i]
    {
      if store[i].student_number == k {
        assert once[i] == patch.ApplyTo(store[i]);
      }
    }
  }

  /** Every update the repository accepts keeps keys unique, including one
      that gives the row a new student number. */
  lemma UpdateUserKeepsKeysUnique(store: Store, k: int, patch: UserPatch)
    requires UniqueKeys(store)
    requires !patch.IsEmpty() && !MovesOntoTakenKey(store, k, patch)
    ensures UniqueKeys(UpdateUser(store, k, patch).value.1)
  {
    var after := UpdateUser(store, k, patch).value.1;
    forall i, j | 0 <= i < j < |after|
      ensures after[i].student_number != after[j].student_number
    {
      var ki, kj := store[i].student_number, store[j].student_number;
      assert ki != kj;
      if ki == k {
        assert after[j] == store[j];
        assert after[i] == patch.ApplyTo(store[i]);
      } else if kj == k {
        assert after[i] == store[i];
        assert after[j] == patch.ApplyTo(store[j]);
      } else {
        assert after[i] == store[i] && after[j] == store[j];
      }
    }
  }
}
