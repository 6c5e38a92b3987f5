/**
 * Sequential use of the two commands against a backend that answers
 * honestly: every GET reflects the store as it stands, a refresh returns a
 * cache that agrees with the store, and a POST answers with the requested
 * record under a new id. Under these conditions the single-active-watch
 * invariant holds, the cache agrees with the store, the unwatch unpacking
 * never fails, and the history digest pairs closing and opening records
 * correctly. Two concrete runs show where the conditions matter.
 */
module Sequential {
  import opened Wrappers
  import opened Records
  import opened History
  import opened BigBrother

  /** A POST response that stores exactly the requested fields under an unused id. */
  predicate Answers(response: Infraction, request: PostRequest, b: seq<Infraction>) {
    && response.userId == request.userId
    && response.kind == request.kind
    && response.reason == request.reason
    && response.active == request.active
    && FreshId(b, response.id)
  }

  predicate HonestPost(response: Option<Infraction>, request: PostRequest, b: seq<Infraction>) {
    response.None? || Answers(response.value, request, b)
  }

  ghost predicate HonestRefresh(refreshed: Option<map<UserId, Infraction>>, b: seq<Infraction>) {
    refreshed.None? || Mirrors(refreshed.value, b)
  }

  /** A watch whose history GET is answered from the store after the POST. */
  function WatchStep(
    s: State, user: Member, reason: string,
    refreshed: Option<map<UserId, Infraction>>, created: Option<Infraction>
  ): Transition<WatchOutcome> {
    ApplyWatch(s, user, reason, refreshed, created, Query(Store(s.backend, created), HistoryOf(user.id)))
  }

  /** An unwatch whose active-watch GET is answered from the store. */
  function UnwatchStep(
    s: State, user: Member, reason: string, banned: bool, closing: Option<Infraction>
  ): Transition<UnwatchOutcome> {
    ApplyUnwatch(s, user, reason, banned, Query(s.backend, ActiveWatchesOf(user.id)), closing)
  }

  datatype Command =
    | WatchCommand(user: Member, reason: string,
                   refreshed: Option<map<UserId, Infraction>>, created: Option<Infraction>)
    | UnwatchCommand(user: Member, reason: string, banned: bool, closing: Option<Infraction>)

  function Next(s: State, c: Command): State {
    match c
    case WatchCommand(user, reason, refreshed, created) =>
      WatchStep(s, user, reason, refreshed, created).state
    case UnwatchCommand(user, reason, banned, closing) =>
      UnwatchStep(s, user, reason, banned, closing).state
  }

  ghost predicate Honest(s: State, c: Command) {
    match c
    case WatchCommand(user, reason, refreshed, created) =>
      HonestRefresh(refreshed, s.backend) && HonestPost(created, WatchRequest(user, reason), s.backend)
    case UnwatchCommand(user, reason, _, closing) =>
      HonestPost(closing, ClosingRequest(user, reason), s.backend)
  }

  /** Commands applied one after another, none overlapping another. */
  function Run(s: State, cs: seq<Command>): State
    decreases |cs|
  {
    if cs == [] then s else Run(Next(s, cs[0]), cs[1..])
  }

  ghost predicate HonestRun(s: State, cs: seq<Command>)
    decreases |cs|
  {
    cs == [] || (Honest(s, cs[0]) && HonestRun(Next(s, cs[0]), cs[1..]))
  }

  /** The closing record of every unwatch in the run was stored. */
  predicate ClosingsStored(cs: seq<Command>) {
    forall i :: 0 <= i < |cs| && cs[i].UnwatchCommand? ==> cs[i].closing.Some?
  }

  /** I1, unique ids, and a cache that agrees with the store. */
  ghost predicate Consistent(s: State) {
    && UniqueIds(s.backend)
    && AtMostOneActive(s.backend)
    && Mirrors(s.cache, s.backend)
  }

  /** Every user's watch log alternates closing and opening records. */
  ghost predicate Paired(s: State) {
    forall u :: Shaped(Log(s.backend, u))
  }

  const Init := State([], map[])

  lemma LogCons(r: Infraction, rest: seq<Infraction>, u: UserId)
    ensures Log([r] + rest, u) == if r.kind == Watch && r.userId == u then [r] + Log(rest, u) else Log(rest, u)
  {
    assert ([r] + rest)[1..] == rest;
  }

  lemma QueryCons(r: Infraction, rest: seq<Infraction>, f: Filter)
    ensures Query([r] + rest, f) == if Matches(r, f) then [r] + Query(rest, f) else Query(rest, f)
  {
    assert ([r] + rest)[1..] == rest;
  }

  // ---------------------------------------------------------------------
  // Store facts used by both commands

  lemma PrependFreshKeepsUnique(r: Infraction, b: seq<Infraction>)
    requires UniqueIds(b) && FreshId(b, r.id)
    ensures UniqueIds([r] + b)
  {
    var b' := [r] + b;
    forall i, j | 0 <= i < j < |b'|
      ensures b'[i].id != b'[j].id
    {
      assert b'[j] == b[j - 1];
      if i > 0 {
        assert b'[i] == b[i - 1];
      } else {
        assert b[j - 1] in b;
      }
    }
  }

  lemma HasActiveWatchCons(r: Infraction, b: seq<Infraction>, v: UserId)
    ensures HasActiveWatch([r] + b, v) <==> (IsActiveWatch(r) && r.userId == v) || HasActiveWatch(b, v)
  {
    if HasActiveWatch([r] + b, v) {
      var x :| x in [r] + b && IsActiveWatch(x) && x.userId == v;
      assert x == r || x in b;
    }
    if HasActiveWatch(b, v) {
      var x :| x in b && IsActiveWatch(x) && x.userId == v;
      assert x in [r] + b;
    }
  }

  /** Storing a new active watch of an uncached user and caching it keeps the agreement. */
  lemma MirrorsPrependActive(m: map<UserId, Infraction>, b: seq<Infraction>, r: Infraction)
    requires Mirrors(m, b) && IsActiveWatch(r) && r.userId !in m
    ensures Mirrors(m[r.userId := r], [r] + b)
  {
    var m' := m[r.userId := r];
    forall v
      ensures v in m' <==> HasActiveWatch([r] + b, v)
    {
      HasActiveWatchCons(r, b, v);
    }
  }

  /** Storing an inactive record changes nothing the cache mirrors. */
  lemma MirrorsPrependInactive(m: map<UserId, Infraction>, b: seq<Infraction>, c: Infraction)
    requires Mirrors(m, b) && !c.active
    ensures Mirrors(m, [c] + b)
  {
    forall v
      ensures v in m <==> HasActiveWatch([c] + b, v)
    {
      HasActiveWatchCons(c, b, v);
    }
  }

  /** A patch keeps every id, so ids stay unique and unused ids stay unused. */
  lemma PatchKeepsIds(b: seq<Infraction>, id: InfractionId, active: bool)
    requires UniqueIds(b)
    ensures UniqueIds(PatchActive(b, id, active))
    ensures forall x :: FreshId(b, x) ==> FreshId(PatchActive(b, id, active), x)
  {
    var p := PatchActive(b, id, active);
    forall x | FreshId(b, x)
      ensures FreshId(p, x)
    {
      forall r | r in p
        ensures r.id != x
      {
        var i :| 0 <= i < |p| && p[i] == r;
        assert b[i] in b;
      }
    }
  }

  /** Deactivating records cannot create a second active watch. */
  lemma DeactivateKeepsAtMostOne(b: seq<Infraction>, id: InfractionId)
    requires AtMostOneActive(b)
    ensures AtMostOneActive(PatchActive(b, id, false))
  {
    var p := PatchActive(b, id, false);
    forall i, j | 0 <= i < j < |p| && IsActiveWatch(p[i]) && IsActiveWatch(p[j])
      ensures p[i].userId != p[j].userId
    {
      assert IsActiveWatch(b[i]) && IsActiveWatch(b[j]);
    }
  }

  /**
   * Deactivating the one active watch `w` of its user leaves that user with
   * no active watch and every other user's records as they were.
   */
  lemma DeactivateSole(b: seq<Infraction>, w: Infraction)
    requires UniqueIds(b)
    requires Query(b, ActiveWatchesOf(w.userId)) == [w]
    ensures forall i :: 0 <= i < |b| && b[i].userId != w.userId ==> PatchActive(b, w.id, false)[i] == b[i]
    ensures !HasActiveWatch(PatchActive(b, w.id, false), w.userId)
  {
    var p := PatchActive(b, w.id, false);
    var u := w.userId;
    assert w in Query(b, ActiveWatchesOf(u));
    forall i | 0 <= i < |p|
      ensures b[i].userId != u ==> p[i] == b[i]
      ensures p[i].userId == u ==> !IsActiveWatch(p[i])
    {
      assert b[i] in b;
      if b[i].id == w.id {
        SameIdSameRecord(b, b[i], w);
      } else {
        var x := b[i];
        assert Matches(x, ActiveWatchesOf(u)) ==> x in Query(b, ActiveWatchesOf(u));
      }
    }
  }

  lemma MirrorsAfterDeactivate(cache: map<UserId, Infraction>, b: seq<Infraction>, p: seq<Infraction>, u: UserId)
    requires Mirrors(cache, b) && |p| == |b|
    requires forall i :: 0 <= i < |b| && b[i].userId != u ==> p[i] == b[i]
    requires forall i :: 0 <= i < |p| ==> p[i].userId == b[i].userId
    requires !HasActiveWatch(p, u)
    ensures Mirrors(cache - {u}, p)
  {
    var cache' := cache - {u};
    forall v | v != u
      ensures HasActiveWatch(p, v) <==> HasActiveWatch(b, v)
    {
      if HasActiveWatch(b, v) {
        var x :| x in b && IsActiveWatch(x) && x.userId == v;
        var i :| 0 <= i < |b| && b[i] == x;
        assert p[i] in p;
      }
      if HasActiveWatch(p, v) {
        var x :| x in p && IsActiveWatch(x) && x.userId == v;
        var i :| 0 <= i < |p| && p[i] == x;
        assert b[i] in b;
      }
    }
    forall v | v in cache'
      ensures cache'[v] in p
    {
      var i :| 0 <= i < |b| && b[i] == cache[v];
      assert p[i] in p;
    }
  }

  // ---------------------------------------------------------------------
  // Watch

  lemma WatchKeepsConsistent(
    s: State, user: Member, reason: string,
    refreshed: Option<map<UserId, Infraction>>, created: Option<Infraction>)
    requires Consistent(s)
    requires HonestRefresh(refreshed, s.backend)
    requires HonestPost(created, WatchRequest(user, reason), s.backend)
    ensures Consistent(WatchStep(s, user, reason, refreshed, created).state)
  {
    var t := WatchStep(s, user, reason, refreshed, created);
    if t.outcome.NowRelayed? {
      var b, r, m := s.backend, created.value, refreshed.value;
      assert t.state == State([r] + b, m[user.id := r]);
      PrependFreshKeepsUnique(r, b);
      assert !HasActiveWatch(b, user.id);
      AtMostOneActiveCons(r, b);
      MirrorsPrependActive(m, b, r);
    }
  }

  /** While I1 holds the unwatch query finds at most one record. */
  lemma UnwatchNeverUnpackError(s: State, user: Member, reason: string, banned: bool, closing: Option<Infraction>)
    requires AtMostOneActive(s.backend)
    ensures |Query(s.backend, ActiveWatchesOf(user.id))| <= 1
    ensures !UnwatchStep(s, user, reason, banned, closing).outcome.UnpackError?
  {
    AtMostOneActiveByQuery(s.backend);
  }

  lemma UnwatchKeepsConsistent(s: State, user: Member, reason: string, banned: bool, closing: Option<Infraction>)
    requires Consistent(s)
    requires HonestPost(closing, ClosingRequest(user, reason), s.backend)
    ensures Consistent(UnwatchStep(s, user, reason, banned, closing).state)
  {
    var b, u := s.backend, user.id;
    var q := Query(b, ActiveWatchesOf(u));
    UnwatchNeverUnpackError(s, user, reason, banned, closing);
    if |q| == 1 {
      var w := q[0];
      assert w in q;
      assert q == [w];
      var p := PatchActive(b, w.id, false);
      var t := UnwatchStep(s, user, reason, banned, closing);
      assert t.state == State(Store(p, closing), s.cache - {u});
      PatchKeepsIds(b, w.id, false);
      DeactivateKeepsAtMostOne(b, w.id);
      DeactivateSole(b, w);
      MirrorsAfterDeactivate(s.cache, b, p, u);
      if closing.Some? {
        PrependFreshKeepsUnique(closing.value, p);
        AtMostOneActiveCons(closing.value, p);
        MirrorsPrependInactive(s.cache - {u}, p, closing.value);
      }
    }
  }

  lemma {:induction false} RunKeepsConsistent(s: State, cs: seq<Command>)
    requires Consistent(s) && HonestRun(s, cs)
    ensures Consistent(Run(s, cs))
    decreases |cs|
  {
    if cs != [] {
      match cs[0] {
        case WatchCommand(user, reason, refreshed, created) =>
          WatchKeepsConsistent(s, user, reason, refreshed, created);
        case UnwatchCommand(user, reason, banned, closing) =>
          UnwatchKeepsConsistent(s, user, reason, banned, closing);
      }
      RunKeepsConsistent(Next(s, cs[0]), cs[1..]);
    }
  }

  /**
   * Invariant I1 for sequential use: starting from an empty store and cache,
   * any honest run leaves at most one active watch per user, a cache that
   * agrees with the store, and an unwatch that never fails to unpack.
   */
  lemma SequentialSingleActiveWatch(cs: seq<Command>, user: Member, reason: string, banned: bool, closing: Option<Infraction>)
    requires HonestRun(Init, cs)
    ensures AtMostOneActive(Run(Init, cs).backend)
    ensures Mirrors(Run(Init, cs).cache, Run(Init, cs).backend)
    ensures forall u :: |Query(Run(Init, cs).backend, ActiveWatchesOf(u))| <= 1
    ensures !UnwatchStep(Run(Init, cs), user, reason, banned, closing).outcome.UnpackError?
  {
    RunKeepsConsistent(Init, cs);
    AtMostOneActiveByQuery(Run(Init, cs).backend);
    UnwatchNeverUnpackError(Run(Init, cs), user, reason, banned, closing);
  }

  // ---------------------------------------------------------------------
  // History pairing

  lemma {:induction false} LogPatch(b: seq<Infraction>, u: UserId, id: InfractionId)
    ensures Log(PatchActive(b, id, false), u) == PatchActive(Log(b, u), id, false)
  {
    if b != [] {
      LogPatch(b[1..], u, id);
      assert PatchActive(b, id, false) == [PatchOne(b[0], id, false)] + PatchActive(b[1..], id, false);
      LogCons(PatchOne(b[0], id, false), PatchActive(b[1..], id, false), u);
      if b[0].kind == Watch && b[0].userId == u {
        var l := Log(b[1..], u);
        assert PatchActive([b[0]] + l, id, false) == [PatchOne(b[0], id, false)] + PatchActive(l, id, false);
      }
    }
  }

  /** Patching to inactive changes nothing when no active record has the id. */
  lemma PatchNoop(l: seq<Infraction>, id: InfractionId)
    requires forall r :: r in l ==> r.id != id || !r.active
    ensures PatchActive(l, id, false) == l
  {
    var p := PatchActive(l, id, false);
    forall i | 0 <= i < |l|
      ensures p[i] == l[i]
    {
      assert l[i] in l;
    }
  }

  /** For a user without an active watch, the history GET returns the whole watch log. */
  lemma {:induction false} HistoryIsLog(b: seq<Infraction>, u: UserId)
    requires forall r :: r in b && r.kind == Watch && r.userId == u ==> !r.active
    ensures Query(b, HistoryOf(u)) == Log(b, u)
  {
    if b != [] {
      assert b == [b[0]] + b[1..];
      HistoryIsLog(b[1..], u);
    }
  }

  /** A shaped log without an active watch consists of completed episodes only. */
  lemma UnwatchedLogIsEpisodes(b: seq<Infraction>, u: UserId)
    requires Shaped(Log(b, u)) && !HasActiveWatch(b, u)
    ensures Episodes(Log(b, u))
    ensures Query(b, HistoryOf(u)) == Log(b, u)
  {
    var l := Log(b, u);
    if l != [] {
      assert l[0] in l;
    }
    HistoryIsLog(b, u);
  }

  lemma WatchKeepsPaired(
    s: State, user: Member, reason: string,
    refreshed: Option<map<UserId, Infraction>>, created: Option<Infraction>)
    requires Consistent(s) && Paired(s)
    requires HonestRefresh(refreshed, s.backend)
    requires HonestPost(created, WatchRequest(user, reason), s.backend)
    ensures Paired(WatchStep(s, user, reason, refreshed, created).state)
  {
    var t := WatchStep(s, user, reason, refreshed, created);
    if t.outcome.NowRelayed? {
      var b, r := s.backend, created.value;
      assert t.state.backend == [r] + b;
      assert !HasActiveWatch(b, user.id);
      UnwatchedLogIsEpisodes(b, user.id);
      forall v
        ensures Shaped(Log([r] + b, v))
      {
        LogCons(r, b, v);
        if v == user.id {
          assert ([r] + Log(b, v))[1..] == Log(b, v);
        }
      }
    }
  }

  /**
   * The log of the user being unwatched, when its one active watch is `w`:
   * the patch turns it into completed episodes under the deactivated `w`.
   */
  lemma DeactivateHead(b: seq<Infraction>, w: Infraction)
    requires Shaped(Log(b, w.userId))
    requires Query(b, ActiveWatchesOf(w.userId)) == [w]
    ensures Log(b, w.userId) != [] && Log(b, w.userId)[0] == w
    ensures Log(PatchActive(b, w.id, false), w.userId) == [w.(active := false)] + Log(b, w.userId)[1..]
    ensures Episodes(Log(b, w.userId)[1..])
  {
    var u := w.userId;
    var l := Log(b, u);
    assert w in Query(b, ActiveWatchesOf(u));
    OpenEpisode(l, w);
    var x := l[0];
    assert x in l;
    assert Matches(x, ActiveWatchesOf(u)) ==> x in Query(b, ActiveWatchesOf(u));
    var e := l[1..];
    assert l == [w] + e;
    EpisodesInactive(e);
    PatchNoop(e, w.id);
    LogPatch(b, u, w.id);
    PatchCons(w, e, w.id, false);
  }

  lemma PatchCons(r: Infraction, rest: seq<Infraction>, id: InfractionId, active: bool)
    ensures PatchActive([r] + rest, id, active) == [PatchOne(r, id, active)] + PatchActive(rest, id, active)
  {
    assert ([r] + rest)[1..] == rest;
  }

  /** The unwatched user's log gains a closing record over its deactivated watch. */
  lemma UnwatchedUserPaired(b: seq<Infraction>, w: Infraction, c: Infraction)
    requires Shaped(Log(b, w.userId))
    requires Query(b, ActiveWatchesOf(w.userId)) == [w]
    requires c.kind == Watch && c.userId == w.userId && !c.active && IsClosing(c)
    ensures Shaped(Log([c] + PatchActive(b, w.id, false), w.userId))
  {
    var u := w.userId;
    var p := PatchActive(b, w.id, false);
    var e := Log(b, u)[1..];
    var opening := w.(active := false);
    LogCons(c, p, u);
    DeactivateHead(b, w);
    ShapedAfterClosing(c, Log(p, u), opening, e);
  }

  lemma ShapedAfterClosing(c: Infraction, l: seq<Infraction>, opening: Infraction, e: seq<Infraction>)
    requires l == [opening] + e && Episodes(e)
    requires !c.active && !opening.active && IsClosing(c)
    ensures Shaped([c] + l)
  {
    assert [c] + l == [c, opening] + e;
    EpisodesCons(c, opening, e);
  }

  /** Every other user's log is untouched by an unwatch. */
  lemma OtherUsersLogUnchanged(b: seq<Infraction>, w: Infraction, c: Infraction, v: UserId)
    requires UniqueIds(b) && w in b
    requires v != w.userId && c.userId == w.userId
    ensures Log([c] + PatchActive(b, w.id, false), v) == Log(b, v)
  {
    LogCons(c, PatchActive(b, w.id, false), v);
    LogPatch(b, v, w.id);
    forall r | r in Log(b, v)
      ensures r.id != w.id
    {
      SameIdSameRecord(b, r, w);
    }
    PatchNoop(Log(b, v), w.id);
  }

  lemma UnwatchKeepsPaired(s: State, user: Member, reason: string, banned: bool, closing: Option<Infraction>)
    requires Consistent(s) && Paired(s)
    requires HonestPost(closing, ClosingRequest(user, reason), s.backend)
    requires closing.Some?
    ensures Paired(UnwatchStep(s, user, reason, banned, closing).state)
    ensures forall v :: v != user.id ==> Log(UnwatchStep(s, user, reason, banned, closing).state.backend, v) == Log(s.backend, v)
  {
    var b, u, c := s.backend, user.id, closing.value;
    var q := Query(b, ActiveWatchesOf(u));
    UnwatchNeverUnpackError(s, user, reason, banned, closing);
    if |q| == 1 {
      var w := q[0];
      assert w in q;
      assert q == [w];
      var b' := [c] + PatchActive(b, w.id, false);
      assert UnwatchStep(s, user, reason, banned, closing).state.backend == b';
      assert IsClosing(c) by {
        assert c.reason == UnwatchedPrefix + reason;
      }
      UnwatchedUserPaired(b, w, c);
      forall v | v != u
        ensures Log(b', v) == Log(b, v) && Shaped(Log(b', v))
      {
        OtherUsersLogUnchanged(b, w, c, v);
      }
    }
  }

  lemma {:induction false} RunKeepsPaired(s: State, cs: seq<Command>)
    requires Consistent(s) && Paired(s) && HonestRun(s, cs) && ClosingsStored(cs)
    ensures Paired(Run(s, cs))
    decreases |cs|
  {
    if cs != [] {
      match cs[0] {
        case WatchCommand(user, reason, refreshed, created) =>
          WatchKeepsConsistent(s, user, reason, refreshed, created);
          WatchKeepsPaired(s, user, reason, refreshed, created);
        case UnwatchCommand(user, reason, banned, closing) =>
          assert cs[0].closing.Some?;
          UnwatchKeepsConsistent(s, user, reason, banned, closing);
          UnwatchKeepsPaired(s, user, reason, banned, closing);
      }
      assert ClosingsStored(cs[1..]) by {
        forall i | 0 <= i < |cs[1..]| && cs[1..][i].UnwatchCommand?
          ensures cs[1..][i].closing.Some?
        {
          assert cs[1..][i] == cs[i + 1];
        }
      }
      RunKeepsPaired(Next(s, cs[0]), cs[1..]);
    }
  }

  /**
   * On a paired store the digest of a successful watch is exact: it appears
   * iff the user was watched before, its count is half the history with
   * nothing rounded away, and its end reason comes from a closing record.
   */
  lemma WatchDigestIsExact(
    s: State, user: Member, reason: string,
    refreshed: Option<map<UserId, Infraction>>, created: Option<Infraction>)
    requires Consistent(s) && Paired(s)
    requires HonestRefresh(refreshed, s.backend)
    requires HonestPost(created, WatchRequest(user, reason), s.backend)
    ensures var t := WatchStep(s, user, reason, refreshed, created);
            t.outcome.NowRelayed? ==>
              && (t.outcome.previous.Some? <==> exists r :: r in s.backend && r.kind == Watch && r.userId == user.id)
              && (t.outcome.previous.Some? ==>
                    && 2 * t.outcome.previous.value.total == |Query(s.backend, HistoryOf(user.id))|
                    && UnwatchedPrefix <= t.outcome.previous.value.endReason)
  {
    var t := WatchStep(s, user, reason, refreshed, created);
    if t.outcome.NowRelayed? {
      var b, r, u := s.backend, created.value, user.id;
      assert !HasActiveWatch(b, u);
      UnwatchedLogIsEpisodes(b, u);
      QueryCons(r, b, HistoryOf(u));
      assert Query([r] + b, HistoryOf(u)) == Log(b, u);
      SummarizeEpisodes(Log(b, u));
      if Log(b, u) != [] {
        assert Log(b, u)[0] in Log(b, u);
      }
    }
  }

  /**
   * Every honest sequential run from the empty state keeps the watch logs
   * paired, provided no closing record is lost.
   */
  lemma SequentialHistoryPaired(cs: seq<Command>)
    requires HonestRun(Init, cs) && ClosingsStored(cs)
    ensures Paired(Run(Init, cs))
  {
    RunKeepsPaired(Init, cs);
  }

  // ---------------------------------------------------------------------
  // Where the conditions matter

  /** The store of the lost-closing scenario: one completed episode under an open one. */
  function EpisodeUnderOpenWatch(): State {
    State([ Infraction(3, 7, true, Watch, "B"),
            Infraction(2, 7, false, Watch, "Unwatched: X"),
            Infraction(1, 7, false, Watch, "A") ],
          map[7 := Infraction(3, 7, true, Watch, "B")])
  }

  lemma EpisodeUnderOpenWatchPaired()
    ensures Paired(EpisodeUnderOpenWatch())
  {
    var b := EpisodeUnderOpenWatch().backend;
    assert UnwatchedPrefix <= b[1].reason;
    forall v
      ensures Shaped(Log(b, v))
    {
      LogCons(b[0], b[1..], v);
      LogCons(b[1], b[2..], v);
      LogCons(b[2], [], v);
      assert b[1..] == [b[1], b[2]] && b[2..] == [b[2]];
      if v == 7 {
        assert Log(b, v) == b;
        assert b[1..][2..] == [];
      }
    }
  }

  /** The same store after an unwatch whose closing POST answered nothing. */
  function AfterLostClosing(): State {
    State([ Infraction(3, 7, false, Watch, "B"),
            Infraction(2, 7, false, Watch, "Unwatched: X"),
            Infraction(1, 7, false, Watch, "A") ],
          map[])
  }

  /**
   * A closing POST that answers nothing is ignored: the unwatch still
   * reports success and drops the user from the cache, but the log is no
   * longer paired.
   */
  lemma LostClosingUnpairs()
    ensures var u := UnwatchStep(EpisodeUnderOpenWatch(), Member(7, false), "Y", false, None);
            && u.outcome == NoLongerRelayed(true)
            && u.state == AfterLostClosing()
            && !Paired(u.state)
  {
    var b := EpisodeUnderOpenWatch().backend;
    var patched := AfterLostClosing().backend;
    assert Query(b, ActiveWatchesOf(7)) == [b[0]] by {
      QueryCons(b[0], b[1..], ActiveWatchesOf(7));
      QueryCons(b[1], b[2..], ActiveWatchesOf(7));
      QueryCons(b[2], [], ActiveWatchesOf(7));
      assert b[1..] == [b[1], b[2]] && b[2..] == [b[2]];
    }
    assert PatchActive(b, 3, false) == patched;
    AfterLostClosingLog();
    assert !IsClosing(patched[0]) by {
      assert |patched[0].reason| < |UnwatchedPrefix|;
    }
    assert !Shaped(Log(patched, 7));
  }

  /**
   * After the lost closing record the next watch, though every response
   * is honest, reports an opening reason as the end reason and a closing
   * reason as the start reason.
   */
  lemma LostClosingMispairs()
    ensures HonestRefresh(Some(map[]), AfterLostClosing().backend)
    ensures HonestPost(Some(Infraction(4, 7, true, Watch, "C")), WatchRequest(Member(7, false), "C"), AfterLostClosing().backend)
    ensures WatchStep(AfterLostClosing(), Member(7, false), "C", Some(map[]), Some(Infraction(4, 7, true, Watch, "C"))).outcome
            == NowRelayed(Some(Digest(1, "Watched: Unwatched: X", "B")))
  {
    var patched := AfterLostClosing().backend;
    forall v
      ensures !HasActiveWatch(patched, v)
    {
    }
    var created := Infraction(4, 7, true, Watch, "C");
    var history := Query(Store(patched, Some(created)), HistoryOf(7));
    assert history == patched by {
      LostClosingHistory();
    }
    var d := Digest(1, "Watched: Unwatched: X", "B");
    assert Summarize(patched) == Some(d) by {
      assert WatchedPrefix + patched[1].reason == d.startReason;
    }
  }

  lemma LostClosingHistory()
    ensures Query([Infraction(4, 7, true, Watch, "C")] + AfterLostClosing().backend, HistoryOf(7))
            == AfterLostClosing().backend
  {
    var patched := AfterLostClosing().backend;
    QueryCons(Infraction(4, 7, true, Watch, "C"), patched, HistoryOf(7));
    HistoryIsLog(patched, 7);
    AfterLostClosingLog();
  }

  lemma AfterLostClosingLog()
    ensures Log(AfterLostClosing().backend, 7) == AfterLostClosing().backend
  {
    var patched := AfterLostClosing().backend;
    LogCons(patched[0], patched[1..], 7);
    LogCons(patched[1], patched[2..], 7);
    LogCons(patched[2], [], 7);
    assert patched[1..] == [patched[1], patched[2]] && patched[2..] == [patched[2]];
  }

  /**
   * Two watches of the same user whose refreshes both complete before
   * either POST lands: each passes the "already watched" guard, two active
   * records result, and a later unwatch fails to unpack.
   */
  lemma InterleavedWatchesRace()
    ensures
      var user := Member(7, false);
      var first := Infraction(1, 7, true, Watch, "a");
      var second := Infraction(2, 7, true, Watch, "b");
      var s1 := WatchStep(Init, user, "a", Some(map[]), Some(first)).state;
      var t2 := WatchStep(s1, user, "b", Some(map[]), Some(second));
      && HonestRefresh(Some(map[]), Init.backend)
      && !HonestRefresh(Some(map[]), s1.backend)
      && t2.outcome.NowRelayed?
      && !AtMostOneActive(t2.state.backend)
      && UnwatchStep(t2.state, user, "r", false, None).outcome == UnpackError(2)
  {
    var first := Infraction(1, 7, true, Watch, "a");
    var second := Infraction(2, 7, true, Watch, "b");
    assert HasActiveWatch([first], 7) by {
      assert first in [first];
    }
    var b := [second, first];
    QueryCons(second, [first], ActiveWatchesOf(7));
    QueryCons(first, [], ActiveWatchesOf(7));
    assert IsActiveWatch(b[0]) && IsActiveWatch(b[1]);
  }
}
