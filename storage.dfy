/** The in-memory repository `MemStorage`: users and rates kept in insertion-ordered
    maps keyed by id, each with its own auto-increment counter. */
module Storage {
  import opened Wrappers
  import opened Sequences
  import opened OrderedMaps
  import opened Schema

  // ---------------------------------------------------------------------------
  // Record construction and merge

  /** `insertRate.status || "active"`: a missing or empty status becomes the default. */
  function StatusOrDefault(s: Option<string>): (r: string)
    ensures r != ""
    ensures r == DefaultStatus || s == Some(r)
    ensures s.Some? && s.value != "" ==> r == s.value
  {
    if s.Some? && s.value != "" then s.value else DefaultStatus
  }

  /** The record `createRate` stores: the insert fields, the status defaulted,
      the given id and creation time. */
  function NewRate(ins: InsertRate, id: int, now: Timestamp): (r: Rate)
    ensures r.id == id && r.createdAt == now
    ensures r.status != ""
    ensures InsertOfRate(r) == ins.(status := Some(r.status))
  {
    Rate(id, ins.code, ins.name, ins.category, ins.baseRate, ins.multiplier,
         StatusOrDefault(ins.status), now)
  }

  /** The record `createUser` stores: `{ ...insertUser, id }`. */
  function NewUser(ins: InsertUser, id: int): (u: User)
    ensures u.id == id && InsertOfUser(u) == ins
  {
    User(id, ins.username, ins.password)
  }

  /** A present patch field replaces the old value; an absent one keeps it. */
  function Override(patch: Option<string>, current: string): string
  {
    if patch.Some? then patch.value else current
  }

  /** `{ ...rate, ...rateData }`: a shallow merge of the patch over the record.
      A present field wins even when it is the empty string. */
  function Merge(r: Rate, p: RatePatch): (m: Rate)
    ensures m.id == r.id && m.createdAt == r.createdAt
    ensures p == EmptyPatch ==> m == r
  {
    Rate(r.id,
         Override(p.code, r.code),
         Override(p.name, r.name),
         Override(p.category, r.category),
         Override(p.baseRate, r.baseRate),
         Override(p.multiplier, r.multiplier),
         Override(p.status, r.status),
         r.createdAt)
  }

  /** Building a user from its insert fields and reading them back are inverse. */
  lemma UserRoundTrip(ins: InsertUser, u: User)
    ensures InsertOfUser(NewUser(ins, u.id)) == ins && NewUser(ins, u.id).id == u.id
    ensures NewUser(InsertOfUser(u), u.id) == u
  {
  }

  /** Creating a rate keeps every insert field except that a missing or empty status
      reads back as "active"; a stored rate with a non-empty status is rebuilt exactly. */
  lemma RateRoundTrip(ins: InsertRate, r: Rate, id: int, now: Timestamp)
    ensures NewRate(ins, id, now).id == id && NewRate(ins, id, now).createdAt == now
    ensures InsertOfRate(NewRate(ins, id, now))
         == ins.(status := Some(if ins.status.Some? && ins.status.value != "" then ins.status.value else "active"))
    ensures r.status != "" ==> NewRate(InsertOfRate(r), r.id, r.createdAt) == r
    ensures r.status == "" ==> NewRate(InsertOfRate(r), r.id, r.createdAt) == r.(status := "active")
  {
  }

  /** A merge never touches `id` or `createdAt`; each other field is either the patch's
      value (when present) or the old one. */
  lemma MergeFields(r: Rate, p: RatePatch)
    ensures Merge(r, p).id == r.id && Merge(r, p).createdAt == r.createdAt
    ensures Merge(r, p).code == (if p.code.Some? then p.code.value else r.code)
    ensures Merge(r, p).name == (if p.name.Some? then p.name.value else r.name)
    ensures Merge(r, p).category == (if p.category.Some? then p.category.value else r.category)
    ensures Merge(r, p).baseRate == (if p.baseRate.Some? then p.baseRate.value else r.baseRate)
    ensures Merge(r, p).multiplier == (if p.multiplier.Some? then p.multiplier.value else r.multiplier)
    ensures Merge(r, p).status == (if p.status.Some? then p.status.value else r.status)
  {
  }

  /** Merging the same patch twice is merging it once; the empty patch changes nothing. */
  lemma MergeIdempotent(r: Rate, p: RatePatch)
    ensures Merge(Merge(r, p), p) == Merge(r, p)
    ensures Merge(r, EmptyPatch) == r
  {
  }

  /** A status-only patch changes the status and nothing else. */
  lemma MergeStatusOnly(r: Rate, s: string)
    ensures Merge(r, EmptyPatch.(status := Some(s))) == r.(status := s)
  {
  }

  // ---------------------------------------------------------------------------
  // Lookups over the user list

  /** The index of the first user named `name` (`Array.prototype.find`). */
  function FindUser(us: seq<User>, name: string): (r: Option<nat>)
    ensures r.None? <==> forall i :: 0 <= i < |us| ==> us[i].username != name
    ensures r.Some? ==> r.value < |us| && us[r.value].username == name
    ensures r.Some? ==> forall j :: 0 <= j < r.value ==> us[j].username != name
  {
    if us == [] then None
    else if us[0].username == name then Some(0)
    else match FindUser(us[1..], name)
      case None => None
      case Some(i) => Some(i + 1)
  }

  /** `authenticateUser`: the first user with that username, only if its password
      matches exactly; otherwise nothing. */
  function Authenticate(us: seq<User>, name: string, password: string): (r: Option<User>)
    ensures r.Some? ==> r.value in us && r.value.username == name && r.value.password == password
    ensures r.Some? <==> FindUser(us, name).Some? && us[FindUser(us, name).value].password == password
    ensures r.Some? ==> r.value == us[FindUser(us, name).value]
  {
    match FindUser(us, name)
    case None => None
    case Some(i) => if us[i].password == password then Some(us[i]) else None
  }

  /** No two users share a username (declared by the schema, not enforced by the store). */
  predicate UsernamesUnique(us: seq<User>)
  {
    forall i, j :: 0 <= i < |us| && 0 <= j < |us| && us[i].username == us[j].username ==> i == j
  }

  /** With unique usernames, a stored user authenticates with exactly its own password. */
  lemma AuthenticateStored(us: seq<User>, u: User, password: string)
    requires UsernamesUnique(us) && u in us
    ensures Authenticate(us, u.username, password) == (if password == u.password then Some(u) else None)
  {
    var k :| 0 <= k < |us| && us[k] == u;
    var i := FindUser(us, u.username).value;
    assert us[i].username == us[k].username;
  }

  /** Without a matching username, no password authenticates. */
  lemma AuthenticateUnknown(us: seq<User>, name: string, password: string)
    requires forall u :: u in us ==> u.username != name
    ensures Authenticate(us, name, password) == None
  {
    assert forall i :: 0 <= i < |us| ==> us[i] in us;
  }

  /** The three sample rates seeded at start-up, stamped with `now`. */
  function SampleRates(now: Timestamp): seq<Rate>
  {
    [ Rate(1, "RT001", "Standard Business Rate", "standard", "45.00", "1.25", "active", now),
      Rate(2, "RT002", "Premium Service Rate", "premium", "75.00", "1.50", "active", now),
      Rate(3, "RT003", "Enterprise Rate", "enterprise", "120.00", "2.00", "pending", now) ]
  }

  /** 1, 2, ..., n. */
  function IdsUpTo(n: nat): (r: seq<int>)
    ensures |r| == n && forall i :: 0 <= i < n ==> r[i] == i + 1
    ensures Increasing(r)
  {
    seq(n, i => i + 1)
  }

  /** The ids 1..n are exactly the integers from 1 to n. */
  lemma InIdsUpTo(n: nat, k: int)
    ensures k in IdsUpTo(n) <==> 1 <= k <= n
  {
    if 1 <= k <= n { assert IdsUpTo(n)[k - 1] == k; }
  }

  /** Appending the next id extends the range by one. */
  lemma IdsUpToNext(n: nat)
    ensures IdsUpTo(n) + [n + 1] == IdsUpTo(n + 1)
  {
  }

  /** A map holding the ids 1..n, each with the n-th element of `s` stored under it,
      iterates as `s`. */
  lemma SeededValues<V>(m: OrderedMap<V>, s: seq<V>)
    requires m.Valid() && m.keys == IdsUpTo(|s|)
    requires forall k :: k in m.entries ==> 1 <= k <= |s| && m.entries[k] == s[k - 1]
    ensures m.Values() == s
  {
    forall i | 0 <= i < |s| ensures m.Values()[i] == s[i] {
      assert m.keys[i] == i + 1;
    }
  }

  /** A map whose keys are the ids 1..n holds exactly those keys. */
  lemma SeededKeys<V>(m: OrderedMap<V>, n: nat)
    requires m.Valid() && m.keys == IdsUpTo(n)
    ensures forall k :: k in m.entries <==> 1 <= k <= n
  {
    forall k ensures k in m.entries <==> 1 <= k <= n {
      InIdsUpTo(n, k);
    }
  }

  /** The test `x.id != id` on rates, as one named value. */
  function OtherThan(id: int): Rate -> bool
  {
    (x: Rate) => x.id != id
  }

  /** Deleting a key from a rate map whose keys increase and whose records sit under
      their own ids keeps both properties. */
  lemma DeleteKeepsRates(m: OrderedMap<Rate>, id: int)
    requires m.Valid() && Increasing(m.keys)
    requires forall k :: k in m.entries ==> m.entries[k].id == k
    ensures Increasing(m.Delete(id).0.keys)
    ensures forall k :: k in m.Delete(id).0.entries ==> m.Delete(id).0.entries[k].id == k
  {
    FilterIncreasing(m.keys, Without(id));
  }

  /** Deleting id `id` from such a map drops exactly the record with that id from the
      iteration order. */
  lemma DeleteRateValues(m: OrderedMap<Rate>, id: int)
    requires m.Valid()
    requires forall k :: k in m.entries ==> m.entries[k].id == k
    ensures m.Delete(id).0.Values() == Filter(m.Values(), OtherThan(id))
  {
    DeleteFiltersValues(m, id, (x: Rate) => x.id, OtherThan(id));
  }

  // ---------------------------------------------------------------------------
  // The repository

  class MemStorage {
    var users: OrderedMap<User>
    var rates: OrderedMap<Rate>
    var currentUserId: int
    var currentRateId: int
    /** Every rate id handed out so far, including those since deleted. */
    ghost var issuedRateIds: set<int>

    /** The users map holds exactly the ids 1 .. currentUserId-1, in order, each user
        under its own id. */
    ghost predicate UsersValid()
      reads this`users, this`currentUserId
    {
      && users.Valid()
      && currentUserId >= 1
      && users.keys == IdsUpTo(currentUserId - 1)
      && (forall k :: k in users.entries ==> users.entries[k].id == k)
    }

    /** Every rate is stored under its own id; rate keys are in increasing order; every
        stored id has been issued, and every issued id is below the counter. */
    ghost predicate RatesValid()
      reads this`rates, this`currentRateId, this`issuedRateIds
    {
      && rates.Valid()
      && currentRateId >= 1
      && (forall k :: k in rates.entries ==> rates.entries[k].id == k)
      && Increasing(rates.keys)
      && rates.entries.Keys <= issuedRateIds
      && (forall k :: k in issuedRateIds ==> 1 <= k < currentRateId)
    }

    ghost predicate Valid()
      reads this
    {
      UsersValid() && RatesValid()
    }

    /** `Array.from(this.users.values())`. */
    function Users(): seq<User>
      reads this
      requires Valid()
    {
      users.Values()
    }

    /** `Array.from(this.rates.values())`. */
    function Rates(): seq<Rate>
      reads this
      requires Valid()
    {
      rates.Values()
    }

    constructor (now: Timestamp)
      ensures Valid()
      ensures Users() == [User(1, "admin", "admin123")]
      ensures Rates() == SampleRates(now)
      ensures currentUserId == 2 && currentRateId == 4
      ensures issuedRateIds == {1, 2, 3}
    {
      users := Empty();
      rates := Empty();
      currentUserId := 1;
      currentRateId := 1;
      issuedRateIds := {};
      new;
      InitializeData(now);
    }

    /** Seeds the default user and the sample rates, taking every id from the counters. */
    method InitializeData(now: Timestamp)
      requires users == Empty() && rates == Empty() && issuedRateIds == {}
      requires currentUserId == 1 && currentRateId == 1
      modifies this
      ensures Valid()
      ensures Users() == [User(1, "admin", "admin123")]
      ensures Rates() == SampleRates(now)
      ensures currentUserId == 2 && currentRateId == 4
      ensures issuedRateIds == {1, 2, 3}
    {
      SeedUser();
      SeedRates(now);
    }

    /** The default user, under the first user id. */
    method SeedUser()
      requires users == Empty() && currentUserId == 1
      modifies this`users, this`currentUserId
      ensures UsersValid()
      ensures users.Values() == [User(1, "admin", "admin123")]
      ensures currentUserId == 2
    {
      var defaultUser := User(currentUserId, "admin", "admin123");
      currentUserId := currentUserId + 1;
      users := users.Set(defaultUser.id, defaultUser);
      assert users.keys == [1] == IdsUpTo(1);
      assert users.Values() == [defaultUser];
    }

    /** The three sample rates, under the first three rate ids. */
    method SeedRates(now: Timestamp)
      requires rates == Empty() && issuedRateIds == {} && currentRateId == 1
      modifies this`rates, this`currentRateId, this`issuedRateIds
      ensures RatesValid()
      ensures rates.Values() == SampleRates(now)
      ensures currentRateId == 4 && issuedRateIds == {1, 2, 3}
    {
      var r1 := Rate(currentRateId, "RT001", "Standard Business Rate", "standard", "45.00", "1.25", "active", now);
      currentRateId := currentRateId + 1;
      var r2 := Rate(currentRateId, "RT002", "Premium Service Rate", "premium", "75.00", "1.50", "active", now);
      currentRateId := currentRateId + 1;
      var r3 := Rate(currentRateId, "RT003", "Enterprise Rate", "enterprise", "120.00", "2.00", "pending", now);
      currentRateId := currentRateId + 1;
      var sampleRates := [r1, r2, r3];
      assert sampleRates == SampleRates(now);
      issuedRateIds := {1, 2, 3};

      SetEach(sampleRates);
      assert rates.entries.Keys <= issuedRateIds by {
        SeededKeys(rates, 3);
        forall k | k in rates.entries ensures k in issuedRateIds {
          assert 1 <= k <= 3;
        }
      }
    }

    /** `sampleRates.forEach(rate => this.rates.set(rate.id, rate))` on an empty map,
        for rates numbered 1, 2, ... in order. */
    method SetEach(sampleRates: seq<Rate>)
      requires rates == Empty()
      requires forall i :: 0 <= i < |sampleRates| ==> sampleRates[i].id == i + 1
      modifies this`rates
      ensures rates.Valid() && rates.keys == IdsUpTo(|sampleRates|)
      ensures forall k :: k in rates.entries ==> rates.entries[k].id == k
      ensures rates.Values() == sampleRates
    {
      var seeded := rates;
      for i := 0 to |sampleRates|
        invariant seeded.Valid()
        invariant seeded.keys == IdsUpTo(i)
        invariant forall k :: k in seeded.entries ==> 1 <= k <= i && seeded.entries[k] == sampleRates[k - 1]
      {
        var rate := sampleRates[i];
        seeded := seeded.Set(rate.id, rate);
      }
      SeededValues(seeded, sampleRates);
      rates := seeded;
    }

    /** `getUser`: the user stored under `id`, if any. */
    method GetUser(id: int) returns (u: Option<User>)
      requires Valid()
      ensures u.Some? <==> 1 <= id < currentUserId
      ensures u.Some? ==> u.value.id == id && u.value == Users()[id - 1]
    {
      u := users.Get(id);
      InIdsUpTo(currentUserId - 1, id);
    }

    /** `getUserByUsername`: the first user, in insertion order, with that username. */
    method GetUserByUsername(username: string) returns (u: Option<User>)
      requires Valid()
      ensures u.None? <==> forall x :: x in Users() ==> x.username != username
      ensures u.Some? ==> exists i :: FindUser(Users(), username) == Some(i) && Users()[i] == u.value
    {
      var all := users.Values();
      match FindUser(all, username)
      case None =>
        u := None;
        forall x | x in all ensures x.username != username {
          var k :| 0 <= k < |all| && all[k] == x;
        }
      case Some(i) =>
        u := Some(all[i]);
    }

    /** `createUser`: stores the user under the next id, without checking that the
        username is new. */
    method CreateUser(ins: InsertUser) returns (u: User)
      requires Valid()
      modifies this`users, this`currentUserId
      ensures Valid()
      ensures u == NewUser(ins, old(currentUserId))
      ensures currentUserId == old(currentUserId) + 1
      ensures Users() == old(Users()) + [u]
      ensures rates == old(rates) && currentRateId == old(currentRateId)
      ensures issuedRateIds == old(issuedRateIds)
    {
      var id := currentUserId;
      currentUserId := currentUserId + 1;
      u := NewUser(ins, id);
      InIdsUpTo(id - 1, id);
      SetNewValues(users, id, u);
      IdsUpToNext(id - 1);
      users := users.Set(id, u);
    }

    /** `authenticateUser`: the first user with that username, if the password matches. */
    method AuthenticateUser(username: string, password: string) returns (u: Option<User>)
      requires Valid()
      ensures u == Authenticate(Users(), username, password)
    {
      var user := GetUserByUsername(username);
      if user.Some? && user.value.password == password {
        u := user;
      } else {
        u := None;
      }
    }

    /** `getAllRates`: every stored rate, in insertion order, which is increasing id order. */
    method GetAllRates() returns (rs: seq<Rate>)
      requires Valid()
      ensures rs == Rates()
      ensures forall i, j :: 0 <= i < j < |rs| ==> rs[i].id < rs[j].id
      ensures forall r :: r in rs <==> r.id in rates.entries && rates.entries[r.id] == r
    {
      rs := rates.Values();
      forall r | r in rs ensures r.id in rates.entries && rates.entries[r.id] == r {
        var k :| 0 <= k < |rs| && rs[k] == r;
      }
      forall r: Rate | r.id in rates.entries && rates.entries[r.id] == r ensures r in rs {
        var k :| 0 <= k < |rates.keys| && rates.keys[k] == r.id;
        assert rs[k] == r;
      }
    }

    /** `getRateById`: the rate stored under `id`, if any. */
    method GetRateById(id: int) returns (r: Option<Rate>)
      requires Valid()
      ensures r.None? <==> forall x :: x in Rates() ==> x.id != id
      ensures r.Some? ==> r.value.id == id && r.value in Rates()
      ensures r == rates.Get(id)
    {
      r := rates.Get(id);
      if r.Some? {
        var k :| 0 <= k < |rates.keys| && rates.keys[k] == id;
        assert Rates()[k] == r.value;
      } else {
        forall x | x in Rates() ensures x.id != id {
          var k :| 0 <= k < |Rates()| && Rates()[k] == x;
        }
      }
    }

    /** `createRate`: stamps the next id and the creation time, defaults the status,
        stores the record at the end of the order and returns it. Codes are not
        checked for uniqueness. */
    method CreateRate(ins: InsertRate, now: Timestamp) returns (r: Rate)
      requires Valid()
      modifies this`rates, this`currentRateId, this`issuedRateIds
      ensures Valid()
      ensures r == NewRate(ins, old(currentRateId), now)
      ensures r.id !in old(issuedRateIds) && issuedRateIds == old(issuedRateIds) + {r.id}
      ensures forall k :: k in old(issuedRateIds) ==> k < r.id
      ensures currentRateId == old(currentRateId) + 1
      ensures rates.Get(r.id) == Some(r)
      ensures rates.entries == old(rates.entries)[r.id := r]
      ensures Rates() == old(Rates()) + [r]
      ensures users == old(users) && currentUserId == old(currentUserId)
    {
      var id := currentRateId;
      currentRateId := currentRateId + 1;
      r := NewRate(ins, id, now);
      assert id !in rates.entries;
      forall i | 0 <= i < |rates.keys| ensures rates.keys[i] < id {
        assert rates.keys[i] in rates.entries.Keys;
      }
      IncreasingAppend(rates.keys, id);
      SetNewValues(rates, id, r);
      rates := rates.Set(id, r);
      issuedRateIds := issuedRateIds + {id};
    }

    /** `updateRate`: for an unknown id nothing changes and nothing is returned;
        otherwise the patch is merged over the stored record, which keeps its place. */
    method UpdateRate(id: int, patch: RatePatch) returns (r: Option<Rate>)
      requires Valid()
      modifies this`rates
      ensures Valid()
      ensures r.None? <==> id !in old(rates.entries)
      ensures r.None? ==> rates == old(rates)
      ensures r.Some? ==> r.value == Merge(old(rates.entries)[id], patch)
      ensures r.Some? ==> rates.entries == old(rates.entries)[id := r.value]
      ensures rates.keys == old(rates.keys)
      ensures |Rates()| == |old(Rates())|
      ensures forall i :: 0 <= i < |Rates()| ==>
        Rates()[i] == if old(Rates())[i].id == id then r.value else old(Rates())[i]
      ensures users == old(users) && currentUserId == old(currentUserId)
      ensures currentRateId == old(currentRateId) && issuedRateIds == old(issuedRateIds)
    {
      var rate := rates.Get(id);
      if rate.None? {
        r := None;
        forall i | 0 <= i < |Rates()| ensures Rates()[i].id != id {
          assert Rates()[i] == rates.entries[rates.keys[i]];
        }
        return;
      }
      var updated := Merge(rate.value, patch);
      SetExistingValues(rates, id, updated);
      rates := rates.Set(id, updated);
      r := Some(updated);
    }

    /** `deleteRate`: removes the rate and reports whether it was there; the others
        keep their order and the counter is not rewound. */
    method DeleteRate(id: int) returns (deleted: bool)
      requires Valid()
      modifies this`rates
      ensures Valid()
      ensures deleted <==> id in old(rates.entries)
      ensures rates.Get(id) == None
      ensures forall k :: k != id ==> rates.Get(k) == old(rates.Get(k))
      ensures Rates() == Filter(old(Rates()), OtherThan(id))
      ensures users == old(users) && currentUserId == old(currentUserId)
      ensures currentRateId == old(currentRateId) && issuedRateIds == old(issuedRateIds)
    {
      DeleteKeepsRates(rates, id);
      DeleteRateValues(rates, id);
      DeleteGet(rates, id);
      var result := rates.Delete(id);
      assert result.0.entries.Keys <= rates.entries.Keys;
      rates, deleted := result.0, result.1;
    }

    /** `getRatesByCategory`: the rates whose category is exactly `category`, in order. */
    method GetRatesByCategory(category: string) returns (rs: seq<Rate>)
      requires Valid()
      ensures rs == Filter(Rates(), (x: Rate) => x.category == category)
      ensures IsSubsequence(rs, Rates())
      ensures forall x :: x in rs <==> x in Rates() && x.category == category
    {
      var all := GetAllRates();
      rs := Filter(all, (x: Rate) => x.category == category);
      FilterIsSubsequence(all, (x: Rate) => x.category == category);
    }

    /** `getRatesByStatus`: the rates whose status is exactly `status`, in order. */
    method GetRatesByStatus(status: string) returns (rs: seq<Rate>)
      requires Valid()
      ensures rs == Filter(Rates(), (x: Rate) => x.status == status)
      ensures IsSubsequence(rs, Rates())
      ensures forall x :: x in rs <==> x in Rates() && x.status == status
    {
      var all := GetAllRates();
      rs := Filter(all, (x: Rate) => x.status == status);
      FilterIsSubsequence(all, (x: Rate) => x.status == status);
    }
  }

  // ---------------------------------------------------------------------------
  // Uniqueness is declared by the schema but not enforced by the store

  /** Creating a rate whose code is already in use stores a second rate with that code. */
  method DuplicateCodeAccepted(now: Timestamp) returns (all: seq<Rate>)
    ensures |all| == 4
    ensures all[0].code == all[3].code == "RT001"
    ensures all[0].id == 1 && all[3].id == 4
  {
    var store := new MemStorage(now);
    var created := store.CreateRate(InsertRate("RT001", "Copy", "standard", "1.00", "1.00", None), now);
    all := store.GetAllRates();
  }

  /** A second user named "admin" is stored, but can never log in: authentication only
      ever looks at the first user with a username. */
  method DuplicateUsernameShadowed(now: Timestamp) returns (second: Option<User>, first: Option<User>)
    ensures second == None
    ensures first == Some(User(1, "admin", "admin123"))
  {
    var store := new MemStorage(now);
    var u := store.CreateUser(InsertUser("admin", "other"));
    assert store.Users() == [User(1, "admin", "admin123"), User(2, "admin", "other")];
    second := store.AuthenticateUser("admin", "other");
    first := store.AuthenticateUser("admin", "admin123");
  }
}
