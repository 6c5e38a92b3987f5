/**
 * The watch and unwatch commands of the Big Brother cog as pure transitions.
 *
 * The state is the infraction store together with the cog's cache of
 * watched users. Every response the cog awaits from the outside (the cache
 * refresh, a POST, a GET) is a parameter; the transition returns the new
 * state, the backend calls made in order, and the outcome the moderator is
 * told about.
 */
module BigBrother {
  import opened Wrappers
  import opened Records
  import opened History

  /** The member a command names; `bot` marks automated accounts. */
  datatype Member = Member(id: UserId, bot: bool)

  datatype State = State(backend: seq<Infraction>, cache: map<UserId, Infraction>)

  /** The fields of a record the cog asks the backend to create. */
  datatype PostRequest = PostRequest(userId: UserId, kind: Kind, reason: string, active: bool)

  /** The calls the cog makes to the backend. */
  datatype Call =
    | FetchUserCache
    | PostInfraction(request: PostRequest)
    | Get(filter: Filter)
    | Patch(id: InfractionId, active: bool)

  datatype WatchOutcome =
    | OnlyHumans
    | CacheUpdateFailed
    | AlreadyWatched
    | ResponseEmpty
    | NowRelayed(previous: Option<Digest>)

  /** `announced` is whether a message reaches the channel. */
  datatype UnwatchOutcome =
    | NoLongerRelayed(announced: bool)
    | NotWatched(announced: bool)
    | UnpackError(found: nat)

  datatype Transition<O> = Transition(state: State, calls: seq<Call>, outcome: O)

  function WatchRequest(user: Member, reason: string): PostRequest {
    PostRequest(user.id, Watch, reason, true)
  }

  function ClosingRequest(user: Member, reason: string): PostRequest {
    PostRequest(user.id, Watch, UnwatchedPrefix + reason, false)
  }

  /** The guards of a watch command that precede the POST all pass. */
  predicate GuardsPass(user: Member, refreshed: Option<map<UserId, Infraction>>) {
    !user.bot && refreshed.Some? && user.id !in refreshed.value
  }

  /**
   * Watch `user`. `refreshed` is the outcome of refreshing the cache,
   * `created` the response to the POST and `history` the response to the
   * GET of the user's inactive watch records.
   */
  function ApplyWatch(
    s: State,
    user: Member,
    reason: string,
    refreshed: Option<map<UserId, Infraction>>,
    created: Option<Infraction>,
    history: seq<Infraction>
  ): (t: Transition<WatchOutcome>)
    // a bot is turned away before any backend call, and nothing changes
    ensures user.bot ==> t.state == s && t.calls == [] && t.outcome == OnlyHumans
    // everyone else causes a refresh first
    ensures !user.bot ==> |t.calls| >= 1 && t.calls[0] == FetchUserCache
    // a failed refresh stops the command, leaving the store and the cache as they were
    ensures !user.bot && refreshed.None? ==>
              t.state == s && t.calls == [FetchUserCache] && t.outcome == CacheUpdateFailed
    // an already watched user gets no new record; the cache keeps its refreshed value
    ensures !user.bot && refreshed.Some? && user.id in refreshed.value ==>
              && t.state == State(s.backend, refreshed.value)
              && t.calls == [FetchUserCache]
              && t.outcome == AlreadyWatched
    // past the guards exactly one POST is made, of an active watch with the given reason
    ensures GuardsPass(user, refreshed) ==>
              |t.calls| >= 2 && t.calls[1] == PostInfraction(WatchRequest(user, reason))
    // an empty POST response leaves the refreshed cache alone
    ensures GuardsPass(user, refreshed) && created.None? ==>
              && t.state == State(s.backend, refreshed.value)
              && user.id !in t.state.cache
              && t.calls == [FetchUserCache, PostInfraction(WatchRequest(user, reason))]
              && t.outcome == ResponseEmpty
    // success is exactly: every guard passed and the POST answered
    ensures t.outcome.NowRelayed? <==> GuardsPass(user, refreshed) && created.Some?
    // success stores the record, caches it under the user, and touches no other key
    ensures t.outcome.NowRelayed? ==>
              && t.state.backend == [created.value] + s.backend
              && user.id in t.state.cache && t.state.cache[user.id] == created.value
              && t.state.cache.Keys == refreshed.value.Keys + {user.id}
              && (forall k :: k in refreshed.value ==> t.state.cache[k] == refreshed.value[k])
              && t.calls == [FetchUserCache, PostInfraction(WatchRequest(user, reason)), Get(HistoryOf(user.id))]
    // the digest appears exactly when the history holds at least two records
    ensures t.outcome.NowRelayed? ==>
              (t.outcome.previous.Some? <==> |history| >= 2)
              && t.outcome.previous == Summarize(history)
    // no path but success writes to the store
    ensures !t.outcome.NowRelayed? ==> t.state.backend == s.backend
  {
    if user.bot then
      Transition(s, [], OnlyHumans)
    else if refreshed.None? then
      Transition(s, [FetchUserCache], CacheUpdateFailed)
    else
      var cache := refreshed.value;
      if user.id in cache then
        Transition(State(s.backend, cache), [FetchUserCache], AlreadyWatched)
      else
        var post := PostInfraction(WatchRequest(user, reason));
        match created
        case None =>
          Transition(State(s.backend, cache), [FetchUserCache, post], ResponseEmpty)
        case Some(record) =>
          Transition(
            State([record] + s.backend, cache[user.id := record]),
            [FetchUserCache, post, Get(HistoryOf(user.id))],
            NowRelayed(Summarize(history)))
  }

  /**
   * Unwatch `user`. `activeWatches` is the response to the GET of the
   * user's active watch records and `closing` the response to the POST of
   * the closing record; `banned` is set when the unwatch is part of a ban.
   */
  function ApplyUnwatch(
    s: State,
    user: Member,
    reason: string,
    banned: bool,
    activeWatches: seq<Infraction>,
    closing: Option<Infraction>
  ): (t: Transition<UnwatchOutcome>)
    // the store is asked, the cache is not consulted
    ensures |t.calls| >= 1 && t.calls[0] == Get(ActiveWatchesOf(user.id))
    // no active watch: no write, no cache change; a message exactly when not banned
    ensures activeWatches == [] ==>
              && t.state == s
              && t.calls == [Get(ActiveWatchesOf(user.id))]
              && t.outcome.NotWatched?
              && (t.outcome.announced <==> !banned)
    // several active watches: the unpacking fails before any write
    ensures |activeWatches| > 1 ==>
              && t.state == s
              && t.calls == [Get(ActiveWatchesOf(user.id))]
              && t.outcome == UnpackError(|activeWatches|)
    // exactly one: patch it inactive, post a closing record, drop the user from the cache
    ensures |activeWatches| == 1 ==>
              && t.calls == [ Get(ActiveWatchesOf(user.id)),
                              Patch(activeWatches[0].id, false),
                              PostInfraction(ClosingRequest(user, reason)) ]
              && t.state.backend == Store(PatchActive(s.backend, activeWatches[0].id, false), closing)
              && user.id !in t.state.cache
              && t.state.cache.Keys == s.cache.Keys - {user.id}
              && (forall k :: k in t.state.cache ==> t.state.cache[k] == s.cache[k])
              && t.outcome.NoLongerRelayed?
              && (t.outcome.announced <==> !banned)
    // the store changes only on the single-record path
    ensures t.state.backend != s.backend ==> |activeWatches| == 1
  {
    var get := Get(ActiveWatchesOf(user.id));
    if activeWatches == [] then
      Transition(s, [get], NotWatched(!banned))
    else if |activeWatches| > 1 then
      Transition(s, [get], UnpackError(|activeWatches|))
    else
      var infraction := activeWatches[0];
      var patched := PatchActive(s.backend, infraction.id, false);
      Transition(
        State(Store(patched, closing), s.cache - {user.id}),
        [get, Patch(infraction.id, false), PostInfraction(ClosingRequest(user, reason))],
        NoLongerRelayed(!banned))
  }
}
