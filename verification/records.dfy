/**
 * The infraction store behind the watch list: watch records, the three
 * backend operations the cog uses on them (filtered GET, PATCH of the
 * `active` flag, POST of a new record), and the single-active-watch
 * invariant together with the cache/backend agreement it supports.
 *
 * The store is a sequence ordered newest first, which is the ordering
 * `-inserted_at` every query of the cog asks for.
 */
module Records {
  import opened Wrappers

  type UserId = nat
  type InfractionId = nat

  /** The store is shared by all moderation record types; only `watch` matters here. */
  datatype Kind = Watch | Other(name: string)

  datatype Infraction = Infraction(
    id: InfractionId,
    userId: UserId,
    active: bool,
    kind: Kind,
    reason: string
  )

  predicate IsActiveWatch(r: Infraction) {
    r.active && r.kind == Watch
  }

  /** Query parameters: the type is always `watch`, the user is optional. */
  datatype Filter = Filter(user: Option<UserId>, active: bool)

  /** The default parameters of the cog: every active watch. */
  const AllActiveWatches := Filter(None, true)

  /** The default parameters narrowed to one user (used by unwatch). */
  function ActiveWatchesOf(u: UserId): Filter {
    Filter(Some(u), true)
  }

  /** The inactive watch records of one user (used for the history digest). */
  function HistoryOf(u: UserId): Filter {
    Filter(Some(u), false)
  }

  predicate Matches(r: Infraction, f: Filter) {
    && r.kind == Watch
    && r.active == f.active
    && (f.user.Some? ==> r.userId == f.user.value)
  }

  /** A filtered GET: the matching records, newest first. */
  function Query(b: seq<Infraction>, f: Filter): (q: seq<Infraction>)
    ensures |q| <= |b|
    ensures forall r :: r in q <==> r in b && Matches(r, f)
  {
    if b == [] then []
    else if Matches(b[0], f) then [b[0]] + Query(b[1..], f)
    else Query(b[1..], f)
  }

  /** A query keeps the store's order: the matches of a newer part come before those of an older part. */
  lemma {:induction false} QueryAppend(newer: seq<Infraction>, older: seq<Infraction>, f: Filter)
    ensures Query(newer + older, f) == Query(newer, f) + Query(older, f)
  {
    if newer != [] {
      assert (newer + older)[1..] == newer[1..] + older;
      QueryAppend(newer[1..], older, f);
    } else {
      assert newer + older == older;
    }
  }

  /** The head of a query result is the newest matching record in the store. */
  lemma {:induction false} QueryNewestFirst(b: seq<Infraction>, f: Filter)
    requires Query(b, f) != []
    ensures exists i :: 0 <= i < |b| && b[i] == Query(b, f)[0] && Matches(b[i], f)
                        && forall j :: 0 <= j < i ==> !Matches(b[j], f)
  {
    if Matches(b[0], f) {
      assert b[0] == Query(b, f)[0];
    } else {
      var rest := b[1..];
      QueryNewestFirst(rest, f);
      var i :| 0 <= i < |rest| && rest[i] == Query(rest, f)[0] && Matches(rest[i], f)
               && forall j :: 0 <= j < i ==> !Matches(rest[j], f);
      assert b[i + 1] == Query(b, f)[0];
      forall j | 0 <= j < i + 1
        ensures !Matches(b[j], f)
      {
        if j > 0 {
          assert b[j] == rest[j - 1];
        }
      }
    }
  }

  /** A query finds nothing exactly when no record of the store matches. */
  lemma {:induction false} QueryEmptyIffNoMatch(b: seq<Infraction>, f: Filter)
    ensures Query(b, f) == [] <==> forall r :: r in b ==> !Matches(r, f)
  {
    if b != [] {
      QueryEmptyIffNoMatch(b[1..], f);
      assert b == [b[0]] + b[1..];
    }
  }

  function PatchOne(r: Infraction, id: InfractionId, active: bool): Infraction {
    if r.id == id then r.(active := active) else r
  }

  /** PATCH `infractions/{id}` with `{'active': active}`. */
  function PatchActive(b: seq<Infraction>, id: InfractionId, active: bool): (p: seq<Infraction>)
    ensures |p| == |b|
    ensures forall i :: 0 <= i < |b| ==> p[i] == PatchOne(b[i], id, active)
  {
    if b == [] then [] else [PatchOne(b[0], id, active)] + PatchActive(b[1..], id, active)
  }

  /** A POST whose response is the stored record; an empty response stores nothing. */
  function Store(b: seq<Infraction>, response: Option<Infraction>): (b': seq<Infraction>)
    ensures response.None? ==> b' == b
    ensures response.Some? ==> |b'| == |b| + 1 && b'[0] == response.value && b'[1..] == b
  {
    match response
    case None => b
    case Some(r) => [r] + b
  }

  predicate FreshId(b: seq<Infraction>, id: InfractionId) {
    forall r :: r in b ==> r.id != id
  }

  predicate UniqueIds(b: seq<Infraction>) {
    forall i, j :: 0 <= i < j < |b| ==> b[i].id != b[j].id
  }

  /** With unique ids, an id names at most one record of the store. */
  lemma SameIdSameRecord(b: seq<Infraction>, x: Infraction, y: Infraction)
    requires UniqueIds(b) && x in b && y in b
    ensures x.id == y.id ==> x == y
  {
    var i :| 0 <= i < |b| && b[i] == x;
    var j :| 0 <= j < |b| && b[j] == y;
    assert i < j || j < i || i == j;
  }

  ghost predicate HasActiveWatch(b: seq<Infraction>, u: UserId) {
    exists r :: r in b && IsActiveWatch(r) && r.userId == u
  }

  /** Invariant I1: no two active watch records of the store share a user. */
  predicate AtMostOneActive(b: seq<Infraction>) {
    forall i, j :: 0 <= i < j < |b| && IsActiveWatch(b[i]) && IsActiveWatch(b[j])
                   ==> b[i].userId != b[j].userId
  }

  lemma {:induction false} AtMostOneActiveCons(r: Infraction, rest: seq<Infraction>)
    ensures AtMostOneActive([r] + rest)
            <==> AtMostOneActive(rest) && (IsActiveWatch(r) ==> !HasActiveWatch(rest, r.userId))
  {
    var b := [r] + rest;
    if AtMostOneActive(b) {
      forall i, j | 0 <= i < j < |rest| && IsActiveWatch(rest[i]) && IsActiveWatch(rest[j])
        ensures rest[i].userId != rest[j].userId
      {
        assert b[i + 1] == rest[i] && b[j + 1] == rest[j];
      }
      if IsActiveWatch(r) {
        forall x | x in rest && IsActiveWatch(x)
          ensures x.userId != r.userId
        {
          var k :| 0 <= k < |rest| && rest[k] == x;
          assert b[0] == r && b[k + 1] == x;
          assert IsActiveWatch(b[0]) && IsActiveWatch(b[k + 1]);
        }
      }
    }
    if AtMostOneActive(rest) && (IsActiveWatch(r) ==> !HasActiveWatch(rest, r.userId)) {
      forall i, j | 0 <= i < j < |b| && IsActiveWatch(b[i]) && IsActiveWatch(b[j])
        ensures b[i].userId != b[j].userId
      {
        assert b[j] == rest[j - 1];
        if i > 0 {
          assert b[i] == rest[i - 1];
        } else {
          assert b[j] in rest;
        }
      }
    }
  }

  /**
   * I1 stated over indices is the same as: the unwatch query of every user
   * returns at most one record.
   */
  lemma {:induction false} AtMostOneActiveByQuery(b: seq<Infraction>)
    ensures AtMostOneActive(b) <==> forall u :: |Query(b, ActiveWatchesOf(u))| <= 1
  {
    if b != [] {
      var r, rest := b[0], b[1..];
      assert b == [r] + rest;
      AtMostOneActiveByQuery(rest);
      AtMostOneActiveCons(r, rest);
      if AtMostOneActive(b) {
        forall u
          ensures |Query(b, ActiveWatchesOf(u))| <= 1
        {
          if Matches(r, ActiveWatchesOf(u)) {
            QueryEmptyIffNoMatch(rest, ActiveWatchesOf(u));
          }
        }
      }
      if forall u :: |Query(b, ActiveWatchesOf(u))| <= 1 {
        forall u
          ensures |Query(rest, ActiveWatchesOf(u))| <= 1
        {
          assert |Query(rest, ActiveWatchesOf(u))| <= |Query(b, ActiveWatchesOf(u))|;
        }
        if IsActiveWatch(r) {
          assert |Query(b, ActiveWatchesOf(r.userId))| <= 1;
          QueryEmptyIffNoMatch(rest, ActiveWatchesOf(r.userId));
        }
      }
    }
  }

  /**
   * The cache agrees with the store: it holds exactly the users with an
   * active watch, each mapped to one of that user's active watch records.
   */
  ghost predicate Mirrors(cache: map<UserId, Infraction>, b: seq<Infraction>) {
    && (forall u :: u in cache <==> HasActiveWatch(b, u))
    && (forall u :: u in cache ==> cache[u] in b && IsActiveWatch(cache[u]) && cache[u].userId == u)
  }

  /** The cache built from the records a GET with the default parameters matches. */
  function ActiveMap(b: seq<Infraction>): map<UserId, Infraction> {
    if b == [] then map[]
    else if Matches(b[0], AllActiveWatches) then ActiveMap(b[1..])[b[0].userId := b[0]]
    else ActiveMap(b[1..])
  }

  lemma {:induction false} ActiveMapMirrors(b: seq<Infraction>)
    ensures Mirrors(ActiveMap(b), b)
  {
    if b != [] {
      var rest := b[1..];
      assert b == [b[0]] + rest;
      ActiveMapMirrors(rest);
      forall u
        ensures u in ActiveMap(b) <==> HasActiveWatch(b, u)
      {
        if HasActiveWatch(b, u) {
          var x :| x in b && IsActiveWatch(x) && x.userId == u;
          if x != b[0] {
            assert x in rest;
          }
        }
      }
    }
  }

  /** Every watch record of one user, active or not, newest first. */
  function Log(b: seq<Infraction>, u: UserId): (l: seq<Infraction>)
    ensures forall r :: r in l <==> r in b && r.kind == Watch && r.userId == u
  {
    if b == [] then []
    else if b[0].kind == Watch && b[0].userId == u then [b[0]] + Log(b[1..], u)
    else Log(b[1..], u)
  }
}
