/** Properties of the command history that relate several calls: the
    filtering rule, duplicate suppression over runs of appends, and the
    browsing round trips. */
module HistoryProperties {
  import opened Outcomes
  import opened Neighbor
  import opened CmdHistory

  /** No two neighbouring log entries are equal. */
  predicate NoAdjacentDups(log: seq<string>) {
    forall i :: 0 < i < |log| ==> log[i - 1] != log[i]
  }

  /** Appends each of `texts` in order. */
  function AppendAll(h: History, texts: seq<string>): (r: History)
    ensures r.tmphist == h.tmphist
    ensures |r.log| <= |h.log| + |texts|
    decreases |texts|
  {
    if |texts| == 0 then h else AppendAll(Append(h, texts[0]), texts[1..])
  }

  /** Filtering distributes over concatenation: the candidates of an older
      part of the log come before those of a newer part, each in their own order. */
  lemma {:induction false} FilterConcat(a: seq<string>, b: seq<string>, prefix: string)
    ensures Filter(a + b, prefix) == Filter(a, prefix) + Filter(b, prefix)
    decreases |b|
  {
    if |b| == 0 {
      assert a + b == a;
    } else {
      var b' := b[..|b| - 1];
      var last := b[|b| - 1];
      assert (a + b)[..|a + b| - 1] == a + b';
      assert (a + b)[|a + b| - 1] == last;
      FilterConcat(a, b', prefix);
    }
  }

  /** A one-entry log keeps its entry exactly when the entry matches. */
  lemma FilterSingle(e: string, prefix: string)
    ensures StartsWith(e, prefix) ==> Filter([e], prefix) == [e]
    ensures !StartsWith(e, prefix) ==> Filter([e], prefix) == []
  {
  }

  /** A log whose every entry matches is its own candidate list. */
  lemma {:induction false} FilterAllMatch(log: seq<string>, prefix: string)
    requires forall i :: 0 <= i < |log| ==> StartsWith(log[i], prefix)
    ensures Filter(log, prefix) == log
    decreases |log|
  {
    if |log| > 0 {
      var init := log[..|log| - 1];
      FilterAllMatch(init, prefix);
      assert log == init + [log[|log| - 1]];
    }
  }

  /** Entry `j` matches `prefix` and no later entry does. */
  predicate IsNewestMatch(log: seq<string>, prefix: string, j: int) {
    && 0 <= j < |log|
    && StartsWith(log[j], prefix)
    && forall k :: j < k < |log| ==> !StartsWith(log[k], prefix)
  }

  /** The newest candidate is the newest matching log entry: it sits at an
      index `j` of the log, and nothing after `j` matches. */
  lemma {:induction false} FilterNewestMatch(log: seq<string>, prefix: string) returns (j: int)
    requires |Filter(log, prefix)| > 0
    ensures IsNewestMatch(log, prefix, j)
    ensures log[j] == Filter(log, prefix)[|Filter(log, prefix)| - 1]
    decreases |log|
  {
    var n := |log|;
    var init := log[..n - 1];
    if StartsWith(log[n - 1], prefix) {
      j := n - 1;
    } else {
      assert Filter(log, prefix) == Filter(init, prefix);
      j := FilterNewestMatch(init, prefix);
      assert forall k :: j < k < n - 1 ==> log[k] == init[k];
    }
  }

  /** With an empty prefix the session covers the whole log and opens on its
      newest entry; it fails exactly on an empty log. */
  lemma StartEmptyPrefix(h: History)
    ensures Start(h, "").result.Err? <==> |h.log| == 0
    ensures |h.log| > 0 ==>
      && Start(h, "").state.tmphist.value.items == h.log
      && Start(h, "").result == Ok(h.log[|h.log| - 1])
  {
  }

  /** A successful start returns the newest log entry that starts with the
      typed text. */
  lemma StartReturnsNewestMatch(h: History, text: string)
    requires Start(h, text).result.Ok?
    ensures exists j :: IsNewestMatch(h.log, text, j) && h.log[j] == Start(h, text).result.value
  {
    var r := Start(h, text);
    var f := Filter(h.log, text);
    assert r.result.value == f[|f| - 1];
    var j := FilterNewestMatch(h.log, text);
    assert IsNewestMatch(h.log, text, j) && h.log[j] == r.result.value;
  }

  /** Appending keeps the log free of adjacent duplicates. */
  lemma AppendKeepsNoAdjacentDups(h: History, text: string)
    requires NoAdjacentDups(h.log)
    ensures NoAdjacentDups(Append(h, text).log)
  {
  }

  /** Appending the same command twice in a row is appending it once. */
  lemma AppendTwice(h: History, text: string)
    ensures Append(Append(h, text), text) == Append(h, text)
  {
  }

  /** Any run of appends keeps the log free of adjacent duplicates. */
  lemma {:induction false} AppendAllKeepsNoAdjacentDups(h: History, texts: seq<string>)
    requires NoAdjacentDups(h.log)
    ensures NoAdjacentDups(AppendAll(h, texts).log)
    decreases |texts|
  {
    if |texts| > 0 {
      AppendKeepsNoAdjacentDups(h, texts[0]);
      AppendAllKeepsNoAdjacentDups(Append(h, texts[0]), texts[1..]);
    }
  }

  /** A run of `k > 0` identical appends adds at most one entry: it has the
      effect of a single append. */
  lemma {:induction false} RepeatedAppend(h: History, text: string, k: nat)
    requires k > 0
    ensures AppendAll(h, seq(k, _ => text)) == Append(h, text)
    decreases k
  {
    var run := seq(k, _ => text);
    if k > 1 {
      assert run[1..] == seq(k - 1, _ => text);
      RepeatedAppend(Append(h, text), text, k - 1);
      AppendTwice(h, text);
    } else {
      assert run[1..] == [];
    }
  }

  /** Closing a session twice is closing it once, and closing while idle
      changes nothing. */
  lemma StopIdempotent(h: History)
    ensures Stop(Stop(h)) == Stop(h)
    ensures !h.Browsing() ==> Stop(h) == h
  {
  }

  /** A successful step back followed by a step forward restores the session
      and shows again the command that was current. */
  lemma PrevItemThenNextItem(h: History)
    requires h.Valid() && PrevItem(h).result.Ok?
    ensures NextItem(PrevItem(h).state) == Reply(h, Ok(h.tmphist.value.Current()))
  {
  }

  /** A successful step forward followed by a step back restores the session. */
  lemma NextItemThenPrevItem(h: History)
    requires h.Valid() && NextItem(h).result.Ok?
    ensures PrevItem(NextItem(h).state) == Reply(h, Ok(h.tmphist.value.Current()))
  {
  }

  /** A command appended during a session is not seen by that session. */
  lemma AppendKeepsSnapshot(h: History, text: string)
    requires Start(h, "").result.Ok?
    ensures Append(Start(h, "").state, text).tmphist.value.items == h.log
  {
  }

  /** Reading from the newest end: index `i - |log|` names the same entry as `i`. */
  lemma GetFromNewestEnd(h: History, i: int)
    requires 0 <= i < |h.log|
    ensures Get(h, i - |h.log|) == Get(h, i) == Ok(h.log[i])
  {
  }

  /** How each operation affects `Browsing`: only a successful start opens a
      session, only stop closes one, and the other operations leave it as it was. */
  lemma BrowsingLifecycle(h: History, text: string)
    requires h.Valid()
    ensures Start(h, text).state.Browsing() <==> h.Browsing() || Start(h, text).result.Ok?
    ensures !Stop(h).Browsing()
    ensures PrevItem(h).state.Browsing() == h.Browsing()
    ensures NextItem(h).state.Browsing() == h.Browsing()
    ensures Append(h, text).Browsing() == h.Browsing()
  {
  }

  /** Several browsing steps in a row: the final history and the commands
      shown along the way, oldest step first. */
  datatype Browse = Browse(state: History, shown: seq<string>)

  /** `PrevItem` repeated `k` times, stopping at the first failure. */
  function PrevItems(h: History, k: nat): (r: Result<Browse, HistoryError>)
    requires h.Valid()
    ensures r.Ok? ==> r.value.state.Valid() && r.value.state.log == h.log
    ensures r.Ok? ==> |r.value.shown| == k
    decreases k
  {
    if k == 0 then Ok(Browse(h, []))
    else
      var step := PrevItem(h);
      match step.result
      case Err(e) => Err(e)
      case Ok(x) =>
        match PrevItems(step.state, k - 1)
        case Err(e) => Err(e)
        case Ok(b) => Ok(Browse(b.state, [x] + b.shown))
  }

  /** `NextItem` repeated `k` times, stopping at the first failure. */
  function NextItems(h: History, k: nat): (r: Result<Browse, HistoryError>)
    requires h.Valid()
    ensures r.Ok? ==> r.value.state.Valid() && r.value.state.log == h.log
    ensures r.Ok? ==> |r.value.shown| == k
    decreases k
  {
    if k == 0 then Ok(Browse(h, []))
    else
      var step := NextItem(h);
      match step.result
      case Err(e) => Err(e)
      case Ok(x) =>
        match NextItems(step.state, k - 1)
        case Err(e) => Err(e)
        case Ok(b) => Ok(Browse(b.state, [x] + b.shown))
  }

  /** Inside a session, `k` history steps back are `k` cursor steps back. */
  lemma {:induction false} PrevItemsFollowCursor(h: History, k: nat)
    requires h.Valid() && h.Browsing()
    ensures PrevItems(h, k).Ok? <==> PrevN(h.tmphist.value, k).Ok?
    ensures PrevItems(h, k).Ok? ==>
      && PrevItems(h, k).value.state == h.(tmphist := Some(PrevN(h.tmphist.value, k).value.cursor))
      && PrevItems(h, k).value.shown == PrevN(h.tmphist.value, k).value.shown
    decreases k
  {
    if k > 0 && PrevItem(h).result.Ok? {
      PrevItemsFollowCursor(PrevItem(h).state, k - 1);
    }
  }

  /** Inside a session, `k` history steps forward are `k` cursor steps forward. */
  lemma {:induction false} NextItemsFollowCursor(h: History, k: nat)
    requires h.Valid() && h.Browsing()
    ensures NextItems(h, k).Ok? <==> NextN(h.tmphist.value, k).Ok?
    ensures NextItems(h, k).Ok? ==>
      && NextItems(h, k).value.state == h.(tmphist := Some(NextN(h.tmphist.value, k).value.cursor))
      && NextItems(h, k).value.shown == NextN(h.tmphist.value, k).value.shown
    decreases k
  {
    if k > 0 && NextItem(h).result.Ok? {
      NextItemsFollowCursor(NextItem(h).state, k - 1);
    }
  }

  /** `k > 0` steps back succeed exactly inside a session with at least `k`
      older candidates; they show those candidates newest first. Then `k`
      steps forward restore the history and end on the command that was
      current before. */
  lemma PrevItemsThenNextItems(h: History, k: nat)
    requires h.Valid() && k > 0
    ensures PrevItems(h, k).Ok? <==> h.Browsing() && k <= h.tmphist.value.idx
    ensures PrevItems(h, k).Ok? ==>
      var c := h.tmphist.value;
      forall i :: 0 <= i < k ==> PrevItems(h, k).value.shown[i] == c.items[c.idx - 1 - i]
    ensures PrevItems(h, k).Ok? ==>
      && NextItems(PrevItems(h, k).value.state, k).Ok?
      && NextItems(PrevItems(h, k).value.state, k).value.state == h
      && NextItems(PrevItems(h, k).value.state, k).value.shown[k - 1] == h.tmphist.value.Current()
  {
    if h.Browsing() {
      var c := h.tmphist.value;
      PrevItemsFollowCursor(h, k);
      PrevNWalk(c, k);
      if PrevItems(h, k).Ok? {
        var back := PrevItems(h, k).value.state;
        PrevNThenNextN(c, k);
        NextItemsFollowCursor(back, k);
      }
    }
  }

  /** The candidates for prefix "ls" in the log ["ls", "cd /tmp", "ls -la"]. */
  lemma ScenarioCandidates()
    ensures Filter(["ls", "cd /tmp", "ls -la"], "ls") == ["ls", "ls -la"]
  {
    FilterSingle("ls", "ls");
    FilterSingle("cd /tmp", "ls");
    FilterSingle("ls -la", "ls");
    assert "ls"[..2] == "ls";
    assert "ls -la"[..2] == "ls";
    assert "cd /tmp"[0] != "ls"[0];
    FilterConcat(["ls"], ["cd /tmp"], "ls");
    FilterConcat(["ls", "cd /tmp"], ["ls -la"], "ls");
    assert ["ls", "cd /tmp"] + ["ls -la"] == ["ls", "cd /tmp", "ls -la"];
    assert ["ls"] + ["cd /tmp"] == ["ls", "cd /tmp"];
  }

  /** The log ["ls", "cd /tmp", "ls -la"] browsed with prefix "ls": the
      newest match first, then the older one, then the oldest end, and
      forward again to the newest match. */
  lemma ScenarioPrefix()
    ensures var s := Start(Init(Some(["ls", "cd /tmp", "ls -la"])), "ls");
      var p1 := PrevItem(s.state);
      var p2 := PrevItem(p1.state);
      var n1 := NextItem(p2.state);
      && s.result == Ok("ls -la")
      && p1.result == Ok("ls")
      && p2.result == Err(HistoryEndReached) && p2.state == p1.state
      && n1.result == Ok("ls -la")
  {
    ScenarioCandidates();
    var s := Start(Init(Some(["ls", "cd /tmp", "ls -la"])), "ls");
    assert s.state.tmphist.value == Cursor(["ls", "ls -la"], 1);
  }

  /** An empty log cannot be browsed; a one-entry log has no neighbours. */
  lemma ScenarioSmallLogs()
    ensures Start(Init(None), "") == Reply(Init(None), Err(HistoryEmpty))
    ensures var s := Start(Init(Some(["a"])), "");
      && s.result == Ok("a")
      && NextItem(s.state).result == Err(HistoryEndReached)
      && PrevItem(s.state).result == Err(HistoryEndReached)
  {
  }
}
