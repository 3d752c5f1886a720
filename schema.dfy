/** Record shapes of the two tables (`users`, `rates`), the field selections used for
    inserts, and the login request rule. */
module Schema {
  import opened Wrappers

  /** The value of `new Date()` at the moment a record is stamped; no clock is modelled. */
  type Timestamp = int

  datatype User = User(id: int, username: string, password: string)

  /** `baseRate` and `multiplier` are decimal strings; no numeric meaning is given to them. */
  datatype Rate = Rate(
    id: int,
    code: string,
    name: string,
    category: string,
    baseRate: string,
    multiplier: string,
    status: string,
    createdAt: Timestamp)

  /** The column default of `rates.status`. */
  const DefaultStatus: string := "active"

  /** `insertUserSchema`: exactly `username` and `password`. */
  datatype InsertUser = InsertUser(username: string, password: string)

  /** `insertRateSchema`: every rate column except `id` and `createdAt`; `status`
      has a default and so may be left out. */
  datatype InsertRate = InsertRate(
    code: string,
    name: string,
    category: string,
    baseRate: string,
    multiplier: string,
    status: Option<string>)

  /** `Partial<InsertRate>`: each insert field may be present or absent. */
  datatype RatePatch = RatePatch(
    code: Option<string>,
    name: Option<string>,
    category: Option<string>,
    baseRate: Option<string>,
    multiplier: Option<string>,
    status: Option<string>)

  /** A patch with every field absent. */
  const EmptyPatch: RatePatch := RatePatch(None, None, None, None, None, None)

  /** The insert fields of a stored user. */
  function InsertOfUser(u: User): InsertUser
  {
    InsertUser(u.username, u.password)
  }

  /** The insert fields of a stored rate (its `status` is always given). */
  function InsertOfRate(r: Rate): InsertRate
  {
    InsertRate(r.code, r.name, r.category, r.baseRate, r.multiplier, Some(r.status))
  }

  /** A login request body as received: each field may be missing. */
  datatype LoginBody = LoginBody(username: Option<string>, password: Option<string>)

  /** The parsed `LoginRequest`. */
  datatype LoginRequest = LoginRequest(username: string, password: string)

  /** One validation issue: the offending field and its message. */
  datatype LoginIssue = LoginIssue(field: string, message: string)

  /** A field passes `z.string().min(1)`: present with at least one character.
      Nothing is trimmed, so a blank value passes. */
  predicate FieldValid(v: Option<string>)
  {
    v.Some? && |v.value| >= 1
  }

  /** The body satisfies `loginSchema`. */
  predicate ValidLogin(b: LoginBody)
  {
    FieldValid(b.username) && FieldValid(b.password)
  }

  /** The issues `z.string().min(1, message)` raises for one field. */
  function FieldIssues(field: string, v: Option<string>, message: string): (r: seq<LoginIssue>)
    ensures r == [] <==> FieldValid(v)
    ensures forall i :: 0 <= i < |r| ==> r[i].field == field
  {
    if v.None? then [LoginIssue(field, "Required")]
    else if |v.value| < 1 then [LoginIssue(field, message)]
    else []
  }

  /** `loginSchema.parse(body)`: the request, or every issue found (username's first). */
  function ParseLogin(b: LoginBody): (r: Result<LoginRequest, seq<LoginIssue>>)
    ensures r.Ok? <==> ValidLogin(b)
    ensures r.Ok? ==> r.value.username == b.username.value && r.value.password == b.password.value
    ensures r.Err? ==> r.error != []
    ensures r.Err? ==> forall i :: 0 <= i < |r.error| ==>
      (r.error[i].field == "username" && !FieldValid(b.username))
      || (r.error[i].field == "password" && !FieldValid(b.password))
    ensures r.Err? ==> (!FieldValid(b.username) ==> exists i :: 0 <= i < |r.error| && r.error[i].field == "username")
    ensures r.Err? ==> (!FieldValid(b.password) ==> exists i :: 0 <= i < |r.error| && r.error[i].field == "password")
  {
    var forUsername := FieldIssues("username", b.username, "Username is required");
    var forPassword := FieldIssues("password", b.password, "Password is required");
    var issues := forUsername + forPassword;
    if issues == [] then Ok(LoginRequest(b.username.value, b.password.value))
    else
      assert !FieldValid(b.username) ==> issues[0] == forUsername[0];
      assert !FieldValid(b.password) ==> issues[|forUsername|] == forPassword[0];
      Err(issues)
  }

  /** A blank but non-empty username and password are accepted, and an empty one is not. */
  lemma LoginNotTrimmed()
    ensures ParseLogin(LoginBody(Some(" "), Some("\t"))) == Ok(LoginRequest(" ", "\t"))
    ensures ParseLogin(LoginBody(Some(""), Some("x"))).Err?
    ensures ParseLogin(LoginBody(Some("admin"), None))
         == Err([LoginIssue("password", "Required")])
  {
    assert [] + [LoginIssue("password", "Required")] == [LoginIssue("password", "Required")];
  }
}
