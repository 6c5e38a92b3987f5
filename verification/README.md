# Big Brother watch list, modelled in Dafny

This project models the watch-list lifecycle of the Big Brother cog of a
Discord moderation bot. Moderators watch a member, which relays the member's
messages to a monitoring channel, and later unwatch them. Each watch is an
infraction of type `watch` in the bot's remote infraction store. The cog
also keeps a local cache of watched users, `watched_users`.

The model is functional. A `State` holds the infraction store and the cache.
The store is a sequence of records, newest first, which is the
`-inserted_at` ordering every query asks for. The cache is a map from user
id to record. `ApplyWatch` and `ApplyUnwatch` are pure transitions. Each
takes the store's responses as parameters:

- the outcome of the cache refresh, `Option<map>`;
- the response to a POST, `Option<Infraction>`;
- the response to a GET, a sequence of records.

Each transition returns the new state, the backend calls made in order,
and the outcome the moderator sees.

Modules:

- `Records` (`records.dfy`) covers the store and the three backend
  operations the cog uses. A filtered GET is `Query`. The PATCH of the
  `active` flag is `PatchActive`. A POST whose response is the stored
  record is `Store`. The module also defines invariant I1 (at most one
  active watch per user) and `Mirrors`, which says when the cache agrees
  with the store.
- `History` (`history.dfy`) covers the digest of earlier episodes shown
  when a new watch starts. It also defines the alternation of closing and
  opening records that the digest assumes.
- `BigBrother` (`bigbrother.dfy`) holds the two commands.
- `Sequential` (`sequential.dfy`) covers commands run one after another
  against an honest backend. "Honest" means three things. Every GET reflects
  the store. A refresh either fails or returns a cache that mirrors the
  store. A POST either answers nothing, storing nothing, or answers with the
  requested record under an unused id. Under these conditions:
  - I1 holds;
  - the cache agrees with the store;
  - the single-record unpacking in unwatch never fails.

  If in addition every closing POST of an unwatch is answered and stored
  (`ClosingsStored`), every user's watch records alternate between closing
  and opening records, and the digest pairs them exactly.

  Two concrete runs show what happens when a condition is dropped.

The model follows the code where its behaviour is easy to overlook:

- An unwatch whose closing POST answers nothing still removes the user
  from the cache and reports success (lines 121-127). The code never
  checks that response. `LostClosingUnpairs` and `LostClosingMispairs` show
  the consequence. The store loses its closing/opening alternation, so the
  next digest reports an opening reason as the end reason and a closing
  reason as the start reason. The store and the cache still agree, and I1
  still holds.
- More than one active watch makes the unpacking `[infraction] =
  active_watches` raise before any write (line 114). This is the
  `UnpackError` outcome. The state is unchanged, and no distinct
  integrity outcome is reported.
- The digest reads only the inactive watch records (line 87), not active
  and inactive ones.
- Under honest sequential use in which every closing record is stored, the
  count `len(history) // 2` is never rounded, because the history always
  has even length (`WatchDigestIsExact`). A lost closing record breaks this.
  Watch, unwatch with the closing POST answering nothing, watch again and
  unwatch again: the user then has three inactive watch records, and the
  next digest counts one episode.

## Model

| member | source | states |
|---|---|---|
| Records.Query | bot/cogs/watchchannels/bigbrother.py:83-91 | a filtered GET returns exactly the store's watch records with the requested `active` flag (and user, when given), never more records than the store holds |
| Records.QueryAppend | bot/cogs/watchchannels/bigbrother.py:25 | a query keeps the store's order: on a store made of a newer part followed by an older part, it returns the newer part's matches followed by the older part's matches |
| Records.QueryNewestFirst | bot/cogs/watchchannels/bigbrother.py:25 | with `ordering: -inserted_at` the first record returned is the newest matching record: no newer record matches |
| Records.PatchActive | bot/cogs/watchchannels/bigbrother.py:116-119 | the PATCH sets `active` on the record with the given id and leaves every other record as it was |
| Records.Store | bot/cogs/watchchannels/bigbrother.py:77-79 | a POST that answers a record adds exactly that record as the newest one on top of the unchanged store; an empty answer leaves the store as it was |
| Records.AtMostOneActiveByQuery | bot/cogs/watchchannels/bigbrother.py:105-114 | invariant I1 (no two active watches share a user) holds iff the unwatch GET of every user returns at most one record |
| Records.ActiveMapMirrors | bot/cogs/watchchannels/bigbrother.py:25 | a cache built from the GET with the default parameters (active watches) holds exactly the users with an active watch, each mapped to one of their active watch records |
| History.Summarize | bot/cogs/watchchannels/bigbrother.py:93-97 | a digest exists iff the history has more than one record; its count is the floor of half the length, its end reason is the newest record's reason, its start reason is `Watched: ` followed by the second record's reason |
| History.SummarizeOneEpisode | bot/cogs/watchchannels/bigbrother.py:93-97 | the history `spam`, `test watch` gives one episode, end reason `spam`, start reason `Watched: test watch`; one or zero records give no digest |
| History.SummarizeEpisodes | bot/cogs/watchchannels/bigbrother.py:93-97 | on a history of completed closing/opening pairs the digest appears iff the history is non-empty, counts exactly half the records, and its end reason begins with `Unwatched: ` |
| BigBrother.ApplyWatch | bot/cogs/watchchannels/bigbrother.py:63-101 | bots are refused with no backend call and no change. A failed refresh stops with nothing changed. An already watched user gets no POST, and the cache keeps its refreshed value. An empty POST response leaves the refreshed cache without the user. Success exactly when every guard passes and the POST answers: the record is stored and cached under the user, no other key changes, the inactive history is fetched, and its digest is reported. Only success writes to the store |
| BigBrother.ApplyUnwatch | bot/cogs/watchchannels/bigbrother.py:103-132 | the store is queried and the cache is not consulted. No active watch: no write, no cache change, and a message iff not banned. Several: unpacking fails with no write. Exactly one: it is patched inactive, a closing record `Unwatched: <reason>` is posted, the user is removed from the cache and no other key changes, and success is announced iff not banned |
| Sequential.WatchKeepsConsistent | bot/cogs/watchchannels/bigbrother.py:65-80 | with an honest refresh and POST, a watch preserves unique ids, I1 and the cache/store agreement |
| Sequential.UnwatchNeverUnpackError | bot/cogs/watchchannels/bigbrother.py:112-114 | while I1 holds the unwatch GET finds at most one record, so the unpacking never fails |
| Sequential.UnwatchKeepsConsistent | bot/cogs/watchchannels/bigbrother.py:105-127 | with an honest GET and closing POST (answered or empty), an unwatch preserves unique ids, I1 and the cache/store agreement |
| Sequential.RunKeepsConsistent | bot/cogs/watchchannels/bigbrother.py:63-132 | any honest sequence of watches and unwatches preserves unique ids, I1 and the cache/store agreement |
| Sequential.SequentialSingleActiveWatch | bot/cogs/watchchannels/bigbrother.py:63-132 | from an empty store and cache, after any honest sequential run: at most one active watch per user, the cache agrees with the store, and a following unwatch cannot fail to unpack |
| Sequential.WatchKeepsPaired | bot/cogs/watchchannels/bigbrother.py:77-80 | a successful watch puts the new active record on top of the user's completed episodes, keeping every user's log paired |
| Sequential.DeactivateHead | bot/cogs/watchchannels/bigbrother.py:112-119 | in a paired log the one active watch is the newest record; patching it leaves it deactivated on top of completed episodes |
| Sequential.UnwatchKeepsPaired | bot/cogs/watchchannels/bigbrother.py:112-127 | an unwatch whose closing POST is stored turns the user's open episode into a completed one and leaves every other user's log unchanged |
| Sequential.RunKeepsPaired | bot/cogs/watchchannels/bigbrother.py:63-132 | any honest sequential run in which no closing record is lost keeps every user's log paired |
| Sequential.SequentialHistoryPaired | bot/cogs/watchchannels/bigbrother.py:63-132 | from the empty state, honest runs that store every closing record leave every user's log paired |
| Sequential.WatchDigestIsExact | bot/cogs/watchchannels/bigbrother.py:83-97 | on a paired store a successful watch reports a digest iff the user was watched before; its count is exactly half the user's inactive watch records and its end reason comes from a closing record |
| Sequential.LostClosingUnpairs | bot/cogs/watchchannels/bigbrother.py:121-127 | an unwatch whose closing POST answers nothing still reports success and drops the user from the cache, but leaves the user's log unpaired |
| Sequential.LostClosingMispairs | bot/cogs/watchchannels/bigbrother.py:83-97 | after a lost closing record, the next watch reports the digest `Watched: Unwatched: X` / `B`, even though every response is honest: an opening reason is taken as the end reason |
| Sequential.InterleavedWatchesRace | bot/cogs/watchchannels/bigbrother.py:69-80 | two watches of one user whose refreshes both finish before either POST both pass the "already watched" guard; the store then holds two active watches and a later unwatch fails to unpack |

## Left out

- Command registration, the `bigbrother` group, the `watched`/`watch`/`unwatch` commands and the `with_role` role gating (lines 29-61) are left out. They are dispatch and permission checks, not watch-list logic.
- Message text sent with `ctx.send` and the `log.trace` calls are left out. Outcomes are constructors, and the digest is data (`Digest`) rather than formatted text.
- `post_infraction` and the HTTP API client are foreign network calls. Their responses are parameters. The `hidden=True` flag of the POST is not modelled.
- A GET or PATCH that raises an HTTP error is not modelled. The code does not catch these, so the command would end with whatever writes were already made. In the model every GET answers and every PATCH succeeds.
- `fetch_user_cache`, `_remove_user` and `list_watched_users` come from `watchchannel.py`, which is not part of this model. The refresh is "replace the cache with the given map, or fail and keep it". Removal is map key removal. Listing is not modelled.
- The merging of `ChainMap` parameters (line 107) is computed directly as the filter active ∧ type = watch ∧ user = u.
- Concurrency is left out. Asynchronous interleaving is not modelled, and the invariants are proved only for sequential runs. `InterleavedWatchesRace` shows one concrete interleaving, written as two sequential steps whose second refresh is stale.
- Insertion timestamps are left out. The store's sequence order stands for `inserted_at`.
- User ids and record ids are unbounded naturals. Discord snowflakes and backend ids are integers that the code only compares, so no width matters.
