/** The user entity, the messages the user module returns, and the
    store-wide predicates the rest of the model states its contracts in. */
module Users {

  datatype Option<+T> = None | Some(value: T) {
    function GetOr(default: T): T {
      match this
      case Some(v) => v
      case None => default
    }
  }

  /** One row of the user table. `student_number` is the record key: the
      repository deletes and updates by it. The password column holds
      whatever registration stored there. */
  datatype User = User(
    username: string,
    email: string,
    student_number: int,
    sex: string,
    grade: string,
    password: string)

  /** The repository's rows, in insertion order. */
  type Store = seq<User>

  /** A `DeepPartial<User>`: the columns an update overwrites. */
  datatype UserPatch = UserPatch(
    username: Option<string>,
    email: Option<string>,
    student_number: Option<int>,
    sex: Option<string>,
    grade: Option<string>,
    password: Option<string>)
  {
    predicate IsEmpty() {
      && username.None? && email.None? && student_number.None?
      && sex.None? && grade.None? && password.None?
    }

    /** The row after the patch's columns are written over it. */
    function ApplyTo(u: User): (r: User)
      ensures IsEmpty() ==> r == u
      ensures password.None? ==> r.password == u.password
      ensures student_number.None? ==> r.student_number == u.student_number
    {
      User(
        username.GetOr(u.username),
        email.GetOr(u.email),
        student_number.GetOr(u.student_number),
        sex.GetOr(u.sex),
        grade.GetOr(u.grade),
        password.GetOr(u.password))
    }
  }

  function KeyIs(k: int): User -> bool {
    (u: User) => u.student_number == k
  }

  function KeyIsNot(k: int): User -> bool {
    (u: User) => u.student_number != k
  }

  function NameIs(name: string): User -> bool {
    (u: User) => u.username == name
  }

  /** Some row satisfies `p`. */
  predicate Any<T>(s: seq<T>, p: T -> bool) {
    exists i :: 0 <= i < |s| && p(s[i])
  }

  predicate HasKey(s: Store, k: int) {
    Any(s, KeyIs(k))
  }

  predicate HasName(s: Store, name: string) {
    Any(s, NameIs(name))
  }

  /** At most one row per student number: the uniqueness the primary column enforces. */
  predicate UniqueKeys(s: Store) {
    forall i, j :: 0 <= i < j < |s| ==> s[i].student_number != s[j].student_number
  }
}

/** The literal strings the service returns and the controller sends. */
module Messages {
  const UserNotFound := "用户不存在"
  const WrongPassword := "密码不正确"
  const BadPasswordFormat := "密码格式不对"
  const UserExists := "用户已存在"
  const PasswordMismatch := "两次密码不一致"
  const Registered := "注册成功"
  const LoginOk := "登陆成功"
  const ParamError := "参数传递错误"
  const QueryOk := "查询成功"
  const QueryEmpty := "查询结果为空"

  /** The application error code every business failure carries. */
  const BadRequestCode := 40001
}
