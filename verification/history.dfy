/**
 * The digest of a user's earlier watch episodes that is appended to the
 * confirmation of a new watch, and the alternation of closing and opening
 * records that the digest assumes of the history it reads.
 */
module History {
  import opened Wrappers
  import opened Records

  const WatchedPrefix: string := "Watched: "
  const UnwatchedPrefix: string := "Unwatched: "

  /** `total` previous episodes; the reason the latest one started and ended with. */
  datatype Digest = Digest(total: nat, startReason: string, endReason: string)

  /**
   * The digest of a newest-first history of inactive watch records. Nothing
   * is reported for fewer than two records; otherwise the count is the floor
   * of half the length, the newest record supplies the end reason and the
   * one before it the start reason.
   */
  function Summarize(history: seq<Infraction>): (d: Option<Digest>)
    ensures d.Some? <==> |history| >= 2
    ensures d.Some? ==> 2 * d.value.total <= |history| <= 2 * d.value.total + 1
    ensures d.Some? ==> d.value.endReason == history[0].reason
    ensures d.Some? ==> |d.value.startReason| == |WatchedPrefix| + |history[1].reason|
                        && d.value.startReason[..|WatchedPrefix|] == WatchedPrefix
                        && d.value.startReason[|WatchedPrefix|..] == history[1].reason
  {
    if |history| > 1 then
      Some(Digest(|history| / 2, WatchedPrefix + history[1].reason, history[0].reason))
    else
      None
  }

  /** A record written by an unwatch: its reason carries the closing prefix. */
  predicate IsClosing(r: Infraction) {
    UnwatchedPrefix <= r.reason
  }

  /**
   * Completed episodes, newest first: a closing record followed by the
   * (deactivated) opening record it closed, repeated.
   */
  ghost predicate Episodes(log: seq<Infraction>)
    decreases |log|
  {
    || log == []
    || (&& |log| >= 2
        && !log[0].active && !log[1].active
        && IsClosing(log[0])
        && Episodes(log[2..]))
  }

  /** A user's watch log: completed episodes, possibly under one open episode. */
  ghost predicate Shaped(log: seq<Infraction>) {
    || Episodes(log)
    || (|log| >= 1 && log[0].active && Episodes(log[1..]))
  }

  /** Closing an episode adds a closing record over its opening record. */
  lemma EpisodesCons(closing: Infraction, opening: Infraction, log: seq<Infraction>)
    requires !closing.active && !opening.active && IsClosing(closing)
    requires Episodes(log)
    ensures Episodes([closing, opening] + log)
  {
    assert ([closing, opening] + log)[2..] == log;
  }

  lemma {:induction false} EpisodesInactive(log: seq<Infraction>)
    requires Episodes(log)
    ensures |log| % 2 == 0
    ensures forall r :: r in log ==> !r.active
    decreases |log|
  {
    if log != [] {
      EpisodesInactive(log[2..]);
      assert log == [log[0], log[1]] + log[2..];
    }
  }

  /** A log holding an active record has it on top of completed episodes. */
  lemma OpenEpisode(log: seq<Infraction>, open: Infraction)
    requires Shaped(log) && open in log && open.active
    ensures |log| >= 1 && log[0].active && Episodes(log[1..])
  {
    if !(|log| >= 1 && log[0].active && Episodes(log[1..])) {
      EpisodesInactive(log);
    }
  }

  /**
   * On a history of completed episodes the digest is exact: it appears as
   * soon as there is one episode, counts the episodes without rounding, and
   * ends with the reason of a closing record.
   */
  lemma SummarizeEpisodes(history: seq<Infraction>)
    requires Episodes(history)
    ensures Summarize(history).Some? <==> history != []
    ensures Summarize(history).Some? ==>
              && 2 * Summarize(history).value.total == |history|
              && UnwatchedPrefix <= Summarize(history).value.endReason
  {
    EpisodesInactive(history);
  }

  /** The two-record history of one finished episode. */
  lemma SummarizeOneEpisode(closing: Infraction, opening: Infraction)
    requires closing.reason == "spam" && opening.reason == "test watch"
    ensures Summarize([closing, opening]) == Some(Digest(1, "Watched: test watch", "spam"))
    ensures Summarize([closing]) == None && Summarize([]) == None
  {
    assert WatchedPrefix + opening.reason == "Watched: test watch";
  }
}
