/** The REST handlers for login and rates, as sequential procedures over one store.
    Each maps the storage result to an HTTP status and a JSON body. */
module Routes {
  import opened Wrappers
  import opened Sequences
  import opened Text
  import opened Schema
  import opened Storage

  /** A user as sent to the client: the record without its `password`. */
  datatype PublicUser = PublicUser(id: int, username: string)

  /** The JSON bodies the handlers send. */
  datatype Body =
    | Message(message: string)
    | Invalid(message: string, errors: seq<LoginIssue>)
    | LoggedIn(user: PublicUser, message: string)
    | OneRate(rate: Rate)
    | RateList(rates: seq<Rate>)
    | NoContent

  datatype Response = Response(status: int, body: Body)

  /** `const { password: _, ...userWithoutPassword } = user`. */
  function WithoutPassword(u: User): PublicUser
  {
    PublicUser(u.id, u.username)
  }

  // ---------------------------------------------------------------------------
  // GET /api/rates query

  /** The `category`, `status` and `search` query parameters; each may be missing. */
  datatype RateQuery = RateQuery(category: Option<string>, status: Option<string>, search: Option<string>)

  /** A query parameter is truthy: present and not the empty string. */
  predicate Given(p: Option<string>)
  {
    p.Some? && p.value != ""
  }

  /** The rate's name, code or category contains `term`, ignoring ASCII case. */
  predicate MatchesSearch(x: Rate, term: string)
  {
    || Includes(Lower(x.name), Lower(term))
    || Includes(Lower(x.code), Lower(term))
    || Includes(Lower(x.category), Lower(term))
  }

  /** A rate passes the query: each given parameter is satisfied, category and status
      by exact (case-sensitive) equality, search by case-insensitive substring. */
  predicate Matches(x: Rate, q: RateQuery)
  {
    && (Given(q.category) ==> x.category == q.category.value)
    && (Given(q.status) ==> x.status == q.status.value)
    && (Given(q.search) ==> MatchesSearch(x, q.search.value))
  }

  /** `GET /api/rates`: all rates, narrowed by each given parameter in turn. */
  method ListRates(store: MemStorage, q: RateQuery) returns (resp: Response)
    requires store.Valid()
    ensures resp.status == 200 && resp.body.RateList?
    ensures resp.body.rates == Filter(store.Rates(), (x: Rate) => Matches(x, q))
    ensures IsSubsequence(resp.body.rates, store.Rates())
    ensures forall x :: x in resp.body.rates <==> x in store.Rates() && Matches(x, q)
  {
    var all := store.GetAllRates();
    var rates := all;
    ghost var sel: Rate -> bool := x => true;
    FilterKeepsAll(all, sel);

    ghost var sel1: Rate -> bool := (x: Rate) => Given(q.category) ==> x.category == q.category.value;
    if Given(q.category) {
      var category := q.category.value;
      FilterThenFilter(all, sel, (x: Rate) => x.category == category, sel1);
      rates := Filter(rates, (x: Rate) => x.category == category);
    } else {
      FilterCongruent(all, sel, sel1);
    }

    ghost var sel2: Rate -> bool := (x: Rate) => sel1(x) && (Given(q.status) ==> x.status == q.status.value);
    if Given(q.status) {
      var status := q.status.value;
      FilterThenFilter(all, sel1, (x: Rate) => x.status == status, sel2);
      rates := Filter(rates, (x: Rate) => x.status == status);
    } else {
      FilterCongruent(all, sel1, sel2);
    }

    ghost var sel3: Rate -> bool := (x: Rate) => Matches(x, q);
    if Given(q.search) {
      var searchTerm := Lower(q.search.value);
      FilterThenFilter(all, sel2, (x: Rate) =>
        || Includes(Lower(x.name), searchTerm)
        || Includes(Lower(x.code), searchTerm)
        || Includes(Lower(x.category), searchTerm), sel3);
      rates := Filter(rates, (x: Rate) =>
        || Includes(Lower(x.name), searchTerm)
        || Includes(Lower(x.code), searchTerm)
        || Includes(Lower(x.category), searchTerm));
    } else {
      FilterCongruent(all, sel2, sel3);
    }

    FilterIsSubsequence(all, sel3);
    resp := Response(200, RateList(rates));
  }

  /** Without any given parameter the listing is every rate, in order. */
  lemma UnfilteredListing(all: seq<Rate>, q: RateQuery)
    requires !Given(q.category) && !Given(q.status) && !Given(q.search)
    ensures Filter(all, (x: Rate) => Matches(x, q)) == all
  {
    FilterKeepsAll(all, (x: Rate) => Matches(x, q));
  }

  /** The search test, spelled out: the lower-cased term occurs at some position of
      the lower-cased name, code or category. */
  lemma SearchIff(x: Rate, term: string)
    ensures MatchesSearch(x, term) <==>
      || (exists i: nat :: OccursAt(Lower(x.name), Lower(term), i))
      || (exists i: nat :: OccursAt(Lower(x.code), Lower(term), i))
      || (exists i: nat :: OccursAt(Lower(x.category), Lower(term), i))
  {
    IncludesIff(Lower(x.name), Lower(term));
    IncludesIff(Lower(x.code), Lower(term));
    IncludesIff(Lower(x.category), Lower(term));
    assert MatchesSearch(x, term) == (Includes(Lower(x.name), Lower(term)) || Includes(Lower(x.code), Lower(term)) || Includes(Lower(x.category), Lower(term)));
  }

  /** The search ignores case: a term matches exactly when its lower-cased form does. */
  lemma SearchIgnoresCase(x: Rate, term: string)
    ensures MatchesSearch(x, term) == MatchesSearch(x, Lower(term))
  {
    LowerIdempotent(term);
  }

  // ---------------------------------------------------------------------------
  // Login and the single-rate handlers

  /** `POST /api/login`: 400 with the issues when the body fails `loginSchema`, 401 when
      no user matches, otherwise 200 with the user stripped of its password. */
  method Login(store: MemStorage, body: LoginBody) returns (resp: Response)
    requires store.Valid()
    ensures resp.status == 400 <==> !ValidLogin(body)
    ensures resp.status == 400 ==> resp.body == Invalid("Invalid input", ParseLogin(body).error)
    ensures resp.status == 401 <==>
      ValidLogin(body) && Authenticate(store.Users(), body.username.value, body.password.value).None?
    ensures resp.status == 401 ==> resp.body == Message("Invalid credentials")
    ensures resp.status in {200, 400, 401}
    ensures resp.status == 200 ==> resp.body.LoggedIn? && resp.body.message == "Login successful"
    ensures resp.status == 200 ==>
      resp.body.user == WithoutPassword(Authenticate(store.Users(), body.username.value, body.password.value).value)
  {
    var parsed := ParseLogin(body);
    if parsed.Err? {
      return Response(400, Invalid("Invalid input", parsed.error));
    }
    var user := store.AuthenticateUser(parsed.value.username, parsed.value.password);
    if user.None? {
      return Response(401, Message("Invalid credentials"));
    }
    resp := Response(200, LoggedIn(WithoutPassword(user.value), "Login successful"));
  }

  /** `GET /api/rates/:id`: 404 exactly when no rate has that id. */
  method GetRate(store: MemStorage, id: int) returns (resp: Response)
    requires store.Valid()
    ensures resp.status == 404 <==> forall x :: x in store.Rates() ==> x.id != id
    ensures resp.status == 404 ==> resp.body == Message("Rate not found")
    ensures resp.status != 404 ==> resp.status == 200 && resp.body.OneRate?
    ensures resp.status != 404 ==> resp.body.rate in store.Rates() && resp.body.rate.id == id
  {
    var rate := store.GetRateById(id);
    if rate.None? {
      return Response(404, Message("Rate not found"));
    }
    resp := Response(200, OneRate(rate.value));
  }

  /** `POST /api/rates`: 201 with the created record. */
  method PostRate(store: MemStorage, ins: InsertRate, now: Timestamp) returns (resp: Response)
    requires store.Valid()
    modifies store
    ensures store.Valid()
    ensures resp == Response(201, OneRate(NewRate(ins, old(store.currentRateId), now)))
    ensures store.Rates() == old(store.Rates()) + [resp.body.rate]
    ensures store.rates.entries == old(store.rates.entries)[resp.body.rate.id := resp.body.rate]
    ensures resp.body.rate.id !in old(store.issuedRateIds)
    ensures store.currentRateId == old(store.currentRateId) + 1
    ensures store.users == old(store.users) && store.currentUserId == old(store.currentUserId)
  {
    var rate := store.CreateRate(ins, now);
    resp := Response(201, OneRate(rate));
  }

  /** `PUT /api/rates/:id`: 404 and no change for an unknown id, otherwise 200 with the
      merged record. */
  method PutRate(store: MemStorage, id: int, patch: RatePatch) returns (resp: Response)
    requires store.Valid()
    modifies store
    ensures store.Valid()
    ensures resp.status == 404 <==> id !in old(store.rates.entries)
    ensures resp.status == 404 ==> resp.body == Message("Rate not found") && store.rates == old(store.rates)
    ensures resp.status != 404 ==>
      resp == Response(200, OneRate(Merge(old(store.rates.entries)[id], patch)))
    ensures resp.status != 404 ==> store.rates.entries == old(store.rates.entries)[id := resp.body.rate]
    ensures store.rates.keys == old(store.rates.keys)
    ensures store.users == old(store.users) && store.currentUserId == old(store.currentUserId)
    ensures store.currentRateId == old(store.currentRateId) && store.issuedRateIds == old(store.issuedRateIds)
  {
    var rate := store.UpdateRate(id, patch);
    if rate.None? {
      return Response(404, Message("Rate not found"));
    }
    resp := Response(200, OneRate(rate.value));
  }

  /** `DELETE /api/rates/:id`: 204 with no body when a rate was removed, otherwise 404. */
  method DeleteRate(store: MemStorage, id: int) returns (resp: Response)
    requires store.Valid()
    modifies store
    ensures store.Valid()
    ensures resp.status == 204 <==> id in old(store.rates.entries)
    ensures resp.status == 204 ==> resp.body == NoContent
    ensures resp.status != 204 ==> resp == Response(404, Message("Rate not found"))
    ensures store.Rates() == Filter(old(store.Rates()), OtherThan(id))
    ensures store.rates.Get(id) == None
    ensures forall k :: k != id ==> store.rates.Get(k) == old(store.rates.Get(k))
    ensures store.users == old(store.users) && store.currentUserId == old(store.currentUserId)
    ensures store.currentRateId == old(store.currentRateId) && store.issuedRateIds == old(store.issuedRateIds)
  {
    var deleted := store.DeleteRate(id);
    if !deleted {
      return Response(404, Message("Rate not found"));
    }
    resp := Response(204, NoContent);
  }

  /** Creating a rate without a status and then fetching it by the returned id answers
      201 then 200 with the same record, its status filled in as "active". */
  method PostThenGet(store: MemStorage, ins: InsertRate, now: Timestamp) returns (created: Response, fetched: Response)
    requires store.Valid()
    requires ins.status.None?
    modifies store
    ensures created.status == 201 && created.body.OneRate?
    ensures created.body.rate.status == "active"
    ensures fetched == Response(200, created.body)
  {
    created := PostRate(store, ins, now);
    var rate := store.GetRateById(created.body.rate.id);
    assert rate == Some(created.body.rate);
    fetched := GetRate(store, created.body.rate.id);
    assert fetched.body.rate == created.body.rate;
  }
}
