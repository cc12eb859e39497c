/** The user controller: the guards on its query parameters and the mapping
    from service results to response envelopes. */
module UserController {
  import opened Users
  import UserService
  import Repository
  import Messages

  /** A `UserInfosDto`: the public fields of a user, each unset until the
      handler copies it in. There is no password field. */
  datatype UserInfos = UserInfos(
    email: Option<string>,
    stuNum: Option<int>,
    stuName: Option<string>,
    grade: Option<string>,
    sex: Option<string>)
  {
    predicate AllSet() {
      email.Some? && stuNum.Some? && stuName.Some? && grade.Some? && sex.Some?
    }
  }

  const EmptyInfos := UserInfos(None, None, None, None, None)

  /** A paging result as the paging handlers read it. */
  datatype PagingData = PagingData(totalCount: int, items: seq<User>)

  datatype Payload =
    | NoData
    | TokenData(token: string)
    | InfoData(info: UserInfos)
    | PageData(page: PagingData)

  /** `ResponseData.ok(data, msg)` and `ResponseData.fail(msg, code)`. */
  datatype Envelope = Ok(data: Payload, msg: string) | Fail(msg: string, code: int)

  /** What every handler answers when a required parameter is missing. */
  const ParamErrorReply := Ok(NoData, Messages.ParamError)

  /** JavaScript falsiness of a numeric query parameter: absent or zero. */
  predicate FalsyNum(p: Option<int>) {
    p.None? || p.value == 0
  }

  /** JavaScript falsiness of a string query parameter: absent or empty. */
  predicate FalsyStr(p: Option<string>) {
    p.None? || p.value == ""
  }

  /** `registerUser`: success only on the exact success message; any other
      message becomes a failure that carries it unchanged. */
  function RegisterUser(res: string): (r: Envelope)
    ensures r.Ok? <==> res == Messages.Registered
    ensures r.Ok? ==> r.data.NoData? && r.msg == Messages.Registered
    ensures r.Fail? ==> r.msg == res && r.code == Messages.BadRequestCode
  {
    if res == Messages.Registered then Ok(NoData, res)
    else Fail(res, Messages.BadRequestCode)
  }

  /** The login messages the controller treats as failures. */
  const LoginFailures: set<string> :=
    {Messages.UserNotFound, Messages.WrongPassword, Messages.BadPasswordFormat}

  /** `loginUser`: the three failure messages pass through as failures;
      anything else is taken to be a token. */
  function LoginUser(res: string): (r: Envelope)
    ensures r.Fail? <==> res in LoginFailures
    ensures r.Fail? ==> r.msg == res && r.code == Messages.BadRequestCode
    ensures r.Ok? ==> r.data == TokenData(res) && r.msg == Messages.LoginOk
  {
    if res == Messages.UserNotFound || res == Messages.WrongPassword || res == Messages.BadPasswordFormat then
      Fail(res, Messages.BadRequestCode)
    else
      Ok(TokenData(res), Messages.LoginOk)
  }

  /** The DTO `findByStuNum` fills from a found user. */
  function InfosOf(u: User): (r: UserInfos)
    ensures r.AllSet()
  {
    UserInfos(Some(u.email), Some(u.student_number), Some(u.username), Some(u.grade), Some(u.sex))
  }

  /** The user a filled DTO describes, given the password it leaves out. */
  function UserOf(infos: UserInfos, password: string): User
    requires infos.AllSet()
  {
    User(infos.stuName.value, infos.email.value, infos.stuNum.value, infos.sex.value, infos.grade.value, password)
  }

  /** The DTO carries every field of the user except the password: the user
      is recovered from it and the password alone, and two users that
      differ only in password give the same DTO. */
  lemma InfosRoundTrip(u: User, otherPassword: string)
    ensures UserOf(InfosOf(u), u.password) == u
    ensures InfosOf(u.(password := otherPassword)) == InfosOf(u)
  {
  }

  /** `findByStuNum`: a falsy number is refused before any lookup; otherwise
      the reply is always a success, with an empty DTO when nobody holds the
      number and a full one copied from the found user when somebody does. */
  function FindByStuNum(store: Store, stuNum: Option<int>): (r: Envelope)
    ensures r.Ok?
    ensures FalsyNum(stuNum) ==> r == ParamErrorReply
    ensures !FalsyNum(stuNum) ==> r.data.InfoData?
    ensures !FalsyNum(stuNum) ==> (r.msg == Messages.QueryOk <==> HasKey(store, stuNum.value))
    ensures !FalsyNum(stuNum) && !HasKey(store, stuNum.value) ==>
              r == Ok(InfoData(EmptyInfos), Messages.QueryEmpty)
    ensures !FalsyNum(stuNum) && HasKey(store, stuNum.value) ==>
              && r.data.info.AllSet()
              && r.data.info.stuNum == stuNum
              && UserOf(r.data.info, UserService.KeyHolder(store, stuNum.value).password)
                 == UserService.KeyHolder(store, stuNum.value)
  {
    if FalsyNum(stuNum) then ParamErrorReply
    else
      match UserService.FindByStuNum(store, stuNum.value)
      case None => Ok(InfoData(EmptyInfos), Messages.QueryEmpty)
      case Some(found) =>
        assert found == UserService.KeyHolder(store, stuNum.value);
        Ok(InfoData(InfosOf(found)), Messages.QueryOk)
  }

  /** The message a paging handler sends with a result. */
  function PagingMessage(page: PagingData): (msg: string)
    ensures msg == Messages.QueryEmpty <==> page.totalCount == 0
    ensures msg == Messages.QueryOk <==> page.totalCount != 0
  {
    if page.totalCount == 0 then Messages.QueryEmpty else Messages.QueryOk
  }

  /** `findAllPaging`: refuses a falsy page size or page number without
      fetching; otherwise replies with the fetched page, whose total count
      decides the message. */
  function FindAllPaging(
    pageNum: Option<int>,
    pageCount: Option<int>,
    fetch: (int, int) -> PagingData): (r: Envelope)
    ensures r.Ok?
    ensures FalsyNum(pageNum) || FalsyNum(pageCount) ==> r == ParamErrorReply
    ensures !FalsyNum(pageNum) && !FalsyNum(pageCount) ==>
              && r.data == PageData(fetch(pageNum.value, pageCount.value))
              && (r.msg == Messages.QueryEmpty <==> fetch(pageNum.value, pageCount.value).totalCount == 0)
              && (r.msg == Messages.QueryOk <==> fetch(pageNum.value, pageCount.value).totalCount != 0)
  {
    if FalsyNum(pageNum) || FalsyNum(pageCount) then ParamErrorReply
    else
      var page := fetch(pageNum.value, pageCount.value);
      Ok(PageData(page), PagingMessage(page))
  }

  /** `findByStuName`: as `findAllPaging`, with the name also required. */
  function FindByStuName(
    stuName: Option<string>,
    pageNum: Option<int>,
    pageCount: Option<int>,
    fetch: (string, int, int) -> PagingData): (r: Envelope)
    ensures r.Ok?
    ensures FalsyStr(stuName) || FalsyNum(pageNum) || FalsyNum(pageCount) ==> r == ParamErrorReply
    ensures !FalsyStr(stuName) && !FalsyNum(pageNum) && !FalsyNum(pageCount) ==>
              && r.data == PageData(fetch(stuName.value, pageNum.value, pageCount.value))
              && (r.msg == Messages.QueryEmpty <==>
                    fetch(stuName.value, pageNum.value, pageCount.value).totalCount == 0)
              && (r.msg == Messages.QueryOk <==>
                    fetch(stuName.value, pageNum.value, pageCount.value).totalCount != 0)
  {
    if FalsyStr(stuName) || FalsyNum(pageNum) || FalsyNum(pageCount) then ParamErrorReply
    else
      var page := fetch(stuName.value, pageNum.value, pageCount.value);
      Ok(PageData(page), PagingMessage(page))
  }

  /** Register end to end: the reply is a success exactly when the service
      registered the user, and a refusal carries the service's reason. */
  lemma RegisterUserEndToEnd(store: Store, dto: UserService.CreateUserDto)
    ensures var (outcome, _) := UserService.CreateUser(store, dto);
            && (RegisterUser(outcome.Message()).Ok? <==> outcome.Registered?)
            && (outcome.UserExists? ==>
                  RegisterUser(outcome.Message()) == Fail(Messages.UserExists, Messages.BadRequestCode))
            && (outcome.PasswordMismatch? ==>
                  RegisterUser(outcome.Message()) == Fail(Messages.PasswordMismatch, Messages.BadRequestCode))
  {
    assert Messages.UserExists != Messages.Registered;
    assert Messages.PasswordMismatch != Messages.Registered;
  }

  /** Login end to end: an unknown student number and a wrong password are
      failures with the service's message and the common code; a correct
      password yields the token signed over the found user's name, provided
      no token ever reads like a failure message. */
  lemma LoginUserEndToEnd(
    store: Store,
    dto: UserService.LoginDto,
    compare: (string, string) -> bool,
    sign: string -> string)
    requires forall name :: sign(name) !in LoginFailures
    ensures !HasKey(store, dto.stuNum) ==>
              LoginUser(UserService.Login(store, dto, compare, sign).Message())
              == Fail(Messages.UserNotFound, Messages.BadRequestCode)
    ensures HasKey(store, dto.stuNum) ==>
              var found := UserService.KeyHolder(store, dto.stuNum);
              LoginUser(UserService.Login(store, dto, compare, sign).Message())
              == if compare(dto.password, found.password)
                 then Ok(TokenData(sign(found.username)), Messages.LoginOk)
                 else Fail(Messages.WrongPassword, Messages.BadRequestCode)
  {
    var outcome := UserService.Login(store, dto, compare, sign);
    if outcome.Signed? {
      assert outcome.token !in LoginFailures;
    }
  }
}
