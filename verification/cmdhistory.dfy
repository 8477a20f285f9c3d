/** The status bar's command history: a chronological log of executed
    commands, oldest first, and an optional browsing session that steps
    through a snapshot of the log filtered by the text already typed. */
module CmdHistory {
  import opened Outcomes
  import opened Neighbor

  /** The signals the history raises instead of returning a command. */
  datatype HistoryError =
    | HistoryEmpty        // `start` found no candidate entry
    | HistoryEndReached   // a browsing step ran past the oldest or newest candidate
    | NotBrowsing         // a browsing step was asked for outside a session
    | IndexOutOfRange     // a read of the log at an index it does not have

  /** The log and, while browsing, the session cursor (`None` when idle). */
  datatype History = History(log: seq<string>, tmphist: Option<Cursor<string>>) {

    /** A session, when open, points at an entry of a non-empty snapshot. */
    predicate Valid() {
      tmphist.Some? ==> tmphist.value.Valid()
    }

    /** Whether a browsing session is open. */
    predicate Browsing() {
      tmphist.Some?
    }
  }

  /** A new history state together with what the operation returned. */
  datatype Reply = Reply(state: History, result: Result<string, HistoryError>)

  /** Exact, case-sensitive prefix test, as string `startswith`. */
  predicate StartsWith(s: string, prefix: string) {
    |prefix| <= |s| && s[..|prefix|] == prefix
  }

  /** The log entries that start with `prefix`, in their original order. */
  function Filter(log: seq<string>, prefix: string): (r: seq<string>)
    ensures |r| <= |log|
    ensures forall x :: x in r ==> x in log && StartsWith(x, prefix)
    ensures forall x :: x in log && StartsWith(x, prefix) ==> x in r
    decreases |log|
  {
    if |log| == 0 then []
    else
      var rest := Filter(log[..|log| - 1], prefix);
      var last := log[|log| - 1];
      assert log == log[..|log| - 1] + [last];
      if StartsWith(last, prefix) then rest + [last] else rest
  }

  /** A fresh history seeded with the application's saved commands; a
      missing seed (`None`) gives an empty log. The seed is not checked for
      adjacent duplicates. */
  function Init(seed: Option<seq<string>>): (h: History)
    ensures h.Valid() && !h.Browsing()
    ensures seed.None? ==> |h.log| == 0
    ensures seed.Some? ==> h.log == seed.value
  {
    match seed
    case None => History([], None)
    case Some(data) => History(data, None)
  }

  /** Indexed read of the log with list indexing: a negative index counts
      from the newest entry; anything else out of range is an error. */
  function Get(h: History, idx: int): (r: Result<string, HistoryError>)
    ensures r.Ok? <==> -|h.log| <= idx < |h.log|
    ensures r.Err? ==> r.error == IndexOutOfRange
    ensures r.Ok? ==> r.value in h.log
    ensures 0 <= idx < |h.log| ==> r == Ok(h.log[idx])
    ensures -|h.log| <= idx < 0 ==> r == Ok(h.log[|h.log| + idx])
  {
    if 0 <= idx < |h.log| then Ok(h.log[idx])
    else if -|h.log| <= idx < 0 then Ok(h.log[|h.log| + idx])
    else Err(IndexOutOfRange)
  }

  /** Opens a browsing session over the entries starting with `text` (the
      whole log when `text` is empty) and returns the newest of them. With
      no candidate it fails and leaves the history as it was, including a
      session that was already open. */
  function Start(h: History, text: string): (r: Reply)
    ensures r.state.log == h.log
    ensures r.result.Err? <==> forall e :: e in h.log ==> !StartsWith(e, text)
    ensures r.result.Err? ==> r.result.error == HistoryEmpty && r.state == h
    ensures r.result.Ok? ==>
      && r.state.Browsing() && r.state.Valid()
      && r.state.tmphist.value.items == Filter(h.log, text)
      && r.result.value == r.state.tmphist.value.Current()
      && r.state.tmphist.value.idx + 1 == |Filter(h.log, text)|
  {
    FilterEmptyPrefix(h.log);
    var items := if |text| > 0 then Filter(h.log, text) else h.log;
    if |items| == 0 then
      Reply(h, Err(HistoryEmpty))
    else
      var m := LastItem(New(items).value);
      assert m.item in items && StartsWith(m.item, text);
      Reply(h.(tmphist := Some(m.cursor)), Ok(m.item))
  }

  /** Closes the browsing session, if any; never fails. */
  function Stop(h: History): (r: History)
    ensures !r.Browsing() && r.Valid()
    ensures r.log == h.log
  {
    h.(tmphist := None)
  }

  /** Steps the session one candidate back (older) and returns it. Outside a
      session it fails with `NotBrowsing`; at the oldest candidate it fails
      with `HistoryEndReached` and the session stays where it was. */
  function PrevItem(h: History): (r: Reply)
    requires h.Valid()
    ensures r.state.Valid() && r.state.log == h.log
    ensures !h.Browsing() ==> r == Reply(h, Err(NotBrowsing))
    ensures h.Browsing() && h.tmphist.value.idx == 0 ==> r == Reply(h, Err(HistoryEndReached))
    ensures r.result.Ok? <==> h.Browsing() && h.tmphist.value.idx > 0
    ensures r.result.Ok? ==>
      && r.state.Browsing()
      && r.state.tmphist.value.items == h.tmphist.value.items
      && r.state.tmphist.value.idx + 1 == h.tmphist.value.idx
      && r.result.value == r.state.tmphist.value.Current()
  {
    match h.tmphist
    case None => Reply(h, Err(NotBrowsing))
    case Some(c) =>
      match Prev(c)
      case Err(_) => Reply(h, Err(HistoryEndReached))
      case Ok(m) => Reply(h.(tmphist := Some(m.cursor)), Ok(m.item))
  }

  /** Steps the session one candidate forward (newer) and returns it. Outside
      a session it fails with `NotBrowsing`; at the newest candidate it fails
      with `HistoryEndReached` and the session stays where it was. */
  function NextItem(h: History): (r: Reply)
    requires h.Valid()
    ensures r.state.Valid() && r.state.log == h.log
    ensures !h.Browsing() ==> r == Reply(h, Err(NotBrowsing))
    ensures h.Browsing() && h.tmphist.value.idx + 1 == |h.tmphist.value.items| ==>
      r == Reply(h, Err(HistoryEndReached))
    ensures r.result.Ok? <==> h.Browsing() && h.tmphist.value.idx + 1 < |h.tmphist.value.items|
    ensures r.result.Ok? ==>
      && r.state.Browsing()
      && r.state.tmphist.value.items == h.tmphist.value.items
      && r.state.tmphist.value.idx == h.tmphist.value.idx + 1
      && r.result.value == r.state.tmphist.value.Current()
  {
    match h.tmphist
    case None => Reply(h, Err(NotBrowsing))
    case Some(c) =>
      match Next(c)
      case Err(_) => Reply(h, Err(HistoryEndReached))
      case Ok(m) => Reply(h.(tmphist := Some(m.cursor)), Ok(m.item))
  }

  /** Records an executed command unless it repeats the newest entry. An
      open session keeps its snapshot. */
  function Append(h: History, text: string): (r: History)
    ensures r.tmphist == h.tmphist
    ensures |h.log| == 0 || text != h.log[|h.log| - 1] ==> r.log == h.log + [text]
    ensures |h.log| > 0 && text == h.log[|h.log| - 1] ==> r.log == h.log
    ensures |r.log| > 0 && r.log[|r.log| - 1] == text
  {
    if |h.log| == 0 || text != h.log[|h.log| - 1] then h.(log := h.log + [text]) else h
  }

  /** The empty prefix admits every entry, so filtering by it is the identity. */
  lemma {:induction false} FilterEmptyPrefix(log: seq<string>)
    ensures Filter(log, "") == log
    decreases |log|
  {
    if |log| > 0 {
      FilterEmptyPrefix(log[..|log| - 1]);
      assert StartsWith(log[|log| - 1], "");
      assert log == log[..|log| - 1] + [log[|log| - 1]];
    }
  }
}
