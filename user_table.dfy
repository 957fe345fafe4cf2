/**
 * The in-memory user table of the service (main.go) as values: the `User`
 * record, the seed table, what a request body decodes to, what a handler
 * answers, and one function per handler giving its answer and the table
 * afterwards. The class in user_store.dfy is proved against these functions.
 */
module UserTable {
  import opened Wrappers

  /** One row of the table; `id` is Go's `int`, taken as unbounded. */
  datatype User = User(id: int, name: string, email: string)

  /** The two rows the table holds when the process starts. */
  const Seed: seq<User> := [
    User(1, "John Doe", "john@example.com"),
    User(2, "Jane Doe", "jane@example.com")
  ]

  /** The zero `User` that `createUser` declares before decoding into it. */
  const Blank: User := User(0, "", "")

  /**
   * What the JSON decoder read from a body: each field it found. A field the
   * body omits (or sets to null) is `None` and leaves its target untouched.
   */
  datatype Patch = Patch(id: Option<int>, name: Option<string>, email: Option<string>)

  /** The outcome of decoding a request body into a `User`. */
  datatype Body = Decoded(patch: Patch) | Malformed(message: string)

  /**
   * What a handler answers, one tag per HTTP status it writes:
   * Ok 200, Created 201, NoContent 204, NotFound 404, BadRequest 400 with the
   * decoder's message, and Fault for the index-out-of-range panic, which the
   * recovery middleware of gin.Default turns into 500.
   */
  datatype Response =
    | Ok(user: User)
    | Created(user: User)
    | NoContent
    | NotFound
    | BadRequest(message: string)
    | Fault

  /** A handler's answer together with the table it leaves behind. */
  datatype Step = Step(response: Response, users: seq<User>)

  /** Ids strictly increase along the table, as they do in `Seed`. */
  predicate IdsIncreasing(s: seq<User>) {
    forall i, j :: 0 <= i < j < |s| ==> s[i].id < s[j].id
  }

  /** No two rows share an id. */
  predicate IdsUnique(s: seq<User>) {
    forall i, j :: 0 <= i < j < |s| ==> s[i].id != s[j].id
  }

  /** Some row carries `id`. */
  predicate HasId(s: seq<User>, id: int) {
    exists k :: 0 <= k < |s| && s[k].id == id
  }

  /**
   * The position the `for i, u := range users` scans of main.go stop at:
   * the first row whose id is `id`, or None when no row has it.
   */
  function FindFirst(s: seq<User>, id: int): (r: Option<nat>)
    ensures r.Some? ==> r.value < |s| && s[r.value].id == id
    ensures r.Some? ==> forall j :: 0 <= j < r.value ==> s[j].id != id
    ensures r.None? <==> !HasId(s, id)
  {
    if |s| == 0 then None
    else if s[0].id == id then Some(0)
    else
      match FindFirst(s[1..], id)
      case None => None
      case Some(k) => Some(k + 1)
  }

  /** Decoding a body over `u`, as `BindJSON(&u)` does: present fields overwrite. */
  function Apply(u: User, p: Patch): (r: User)
    ensures r.id == u.id || p.id == Some(r.id)
    ensures r.name == u.name || p.name == Some(r.name)
    ensures r.email == u.email || p.email == Some(r.email)
  {
    User(p.id.GetOr(u.id), p.name.GetOr(u.name), p.email.GetOr(u.email))
  }

  /** `getUser`: the first row with the id, or NotFound. */
  function Get(s: seq<User>, id: int): (r: Response)
    ensures r.Ok? || r.NotFound?
    ensures r.Ok? ==> r.user in s && r.user.id == id
  {
    match FindFirst(s, id)
    case Some(i) => Ok(s[i])
    case None => NotFound
  }

  /**
   * `createUser`: decode the body into a blank row, give it the last row's
   * id plus one and append it. An empty table has no last row: the handler
   * panics after a successful decode.
   */
  function Create(s: seq<User>, body: Body): (r: Step)
    ensures r.response.Created? ==> r.users == s + [r.response.user]
    ensures !r.response.Created? ==> r.users == s
  {
    match body
    case Malformed(msg) => Step(BadRequest(msg), s)
    case Decoded(p) =>
      if |s| == 0 then Step(Fault, s)
      else
        var u := Apply(Blank, p).(id := s[|s| - 1].id + 1);
        Step(Created(u), s + [u])
  }

  /**
   * `updateUser`: decode the body over the first row with the id, in place.
   * The body is only looked at once a row matches.
   */
  function Update(s: seq<User>, id: int, body: Body): (r: Step)
    ensures r.response.Ok? || r.response.NotFound? || r.response.BadRequest?
    ensures |r.users| == |s|
    ensures !r.response.Ok? ==> r.users == s
    ensures r.response.Ok? ==> r.response.user in r.users
  {
    match FindFirst(s, id)
    case None => Step(NotFound, s)
    case Some(i) =>
      match body
      case Malformed(msg) => Step(BadRequest(msg), s)
      case Decoded(p) =>
        var u := Apply(s[i], p);
        assert s[i := u][i] == u;
        Step(Ok(u), s[i := u])
  }

  /** `deleteUser`: splice out the first row with the id. */
  function Delete(s: seq<User>, id: int): (r: Step)
    ensures r.response.NoContent? || r.response.NotFound?
    ensures r.response.NoContent? ==> |r.users| == |s| - 1 && multiset(r.users) < multiset(s)
    ensures r.response.NotFound? ==> r.users == s
  {
    match FindFirst(s, id)
    case None => Step(NotFound, s)
    case Some(i) =>
      assert s == s[..i] + [s[i]] + s[i + 1..];
      Step(NoContent, s[..i] + s[i + 1..])
  }
}
