/** A bounded cursor over a fixed, non-empty snapshot of items.

    This is the part of a neighbour list that the command history relies on,
    in its "raise on boundary" mode: stepping past either end is reported,
    never clamped and never wrapped, and a failed step leaves the position
    where it was. */
module Neighbor {
  import opened Outcomes

  /** Why a cursor operation could not be performed. */
  datatype CursorError = EmptySequence | OutOfRange

  /** A snapshot `items` and a position `idx` into it. */
  datatype Cursor<T> = Cursor(items: seq<T>, idx: nat) {

    /** The position denotes an element of the snapshot. */
    predicate Valid() {
      idx < |items|
    }

    /** The item under the cursor. */
    function Current(): T
      requires Valid()
    {
      items[idx]
    }
  }

  /** The outcome of one successful step: the moved cursor and the item it now shows. */
  datatype Moved<T> = Moved(cursor: Cursor<T>, item: T)

  /** The outcome of several successful steps: the final cursor and the items
      shown along the way, in the order they were shown. */
  datatype Walk<T> = Walk(cursor: Cursor<T>, shown: seq<T>)

  /** Builds a cursor over `items`; an empty snapshot is refused. The initial
      position is the oldest item; the history moves it with `LastItem`
      before anything reads it. */
  function New<T>(items: seq<T>): (r: Result<Cursor<T>, CursorError>)
    ensures r.Ok? <==> |items| > 0
    ensures r.Err? ==> r.error == EmptySequence
    ensures r.Ok? ==> r.value.Valid() && r.value.items == items
  {
    if |items| == 0 then Err(EmptySequence) else Ok(Cursor(items, 0))
  }

  /** Moves to the newest item and returns it. */
  function LastItem<T>(c: Cursor<T>): (r: Moved<T>)
    requires c.Valid()
    ensures r.cursor.Valid() && r.cursor.items == c.items
    ensures r.item == r.cursor.Current() == c.items[|c.items| - 1]
    ensures r.cursor.idx + 1 == |c.items| && Next(r.cursor).Err?
  {
    var last := Cursor(c.items, |c.items| - 1);
    Moved(last, last.Current())
  }

  /** Steps one item towards the oldest end; fails at the oldest item. */
  function Prev<T>(c: Cursor<T>): (r: Result<Moved<T>, CursorError>)
    requires c.Valid()
    ensures r.Ok? <==> c.idx > 0
    ensures r.Err? ==> r.error == OutOfRange
    ensures r.Ok? ==> r.value.cursor.Valid() && r.value.cursor.items == c.items
    ensures r.Ok? ==> r.value.cursor.idx + 1 == c.idx
    ensures r.Ok? ==> r.value.item == r.value.cursor.Current()
  {
    if c.idx == 0 then Err(OutOfRange)
    else
      var moved := c.(idx := c.idx - 1);
      Ok(Moved(moved, moved.Current()))
  }

  /** Steps one item towards the newest end; fails at the newest item. */
  function Next<T>(c: Cursor<T>): (r: Result<Moved<T>, CursorError>)
    requires c.Valid()
    ensures r.Ok? <==> c.idx + 1 < |c.items|
    ensures r.Err? ==> r.error == OutOfRange
    ensures r.Ok? ==> r.value.cursor.Valid() && r.value.cursor.items == c.items
    ensures r.Ok? ==> r.value.cursor.idx == c.idx + 1
    ensures r.Ok? ==> r.value.item == r.value.cursor.Current()
  {
    if c.idx + 1 == |c.items| then Err(OutOfRange)
    else
      var moved := c.(idx := c.idx + 1);
      Ok(Moved(moved, moved.Current()))
  }

  /** `Prev` repeated `k` times, stopping at the first failure. */
  function PrevN<T>(c: Cursor<T>, k: nat): (r: Result<Walk<T>, CursorError>)
    requires c.Valid()
    ensures r.Ok? ==> r.value.cursor.Valid() && r.value.cursor.items == c.items
    ensures r.Ok? ==> |r.value.shown| == k
    decreases k
  {
    if k == 0 then Ok(Walk(c, []))
    else match Prev(c)
      case Err(e) => Err(e)
      case Ok(m) =>
        match PrevN(m.cursor, k - 1)
        case Err(e) => Err(e)
        case Ok(w) => Ok(Walk(w.cursor, [m.item] + w.shown))
  }

  /** `Next` repeated `k` times, stopping at the first failure. */
  function NextN<T>(c: Cursor<T>, k: nat): (r: Result<Walk<T>, CursorError>)
    requires c.Valid()
    ensures r.Ok? ==> r.value.cursor.Valid() && r.value.cursor.items == c.items
    ensures r.Ok? ==> |r.value.shown| == k
    decreases k
  {
    if k == 0 then Ok(Walk(c, []))
    else match Next(c)
      case Err(e) => Err(e)
      case Ok(m) =>
        match NextN(m.cursor, k - 1)
        case Err(e) => Err(e)
        case Ok(w) => Ok(Walk(w.cursor, [m.item] + w.shown))
  }

  /** A step back followed by a step forward returns to the same cursor and
      shows the item that was current before. */
  lemma PrevThenNext<T>(c: Cursor<T>)
    requires c.Valid() && Prev(c).Ok?
    ensures Next(Prev(c).value.cursor) == Ok(Moved(c, c.Current()))
  {
  }

  /** A step forward followed by a step back returns to the same cursor. */
  lemma NextThenPrev<T>(c: Cursor<T>)
    requires c.Valid() && Next(c).Ok?
    ensures Prev(Next(c).value.cursor) == Ok(Moved(c, c.Current()))
  {
  }

  /** `k` steps back succeed exactly when at least `k` older items exist; they
      show the older items newest first and end `k` positions earlier. */
  lemma {:induction false} PrevNWalk<T>(c: Cursor<T>, k: nat)
    requires c.Valid()
    ensures PrevN(c, k).Ok? <==> k <= c.idx
    ensures PrevN(c, k).Err? ==> PrevN(c, k).error == OutOfRange
    ensures PrevN(c, k).Ok? ==> PrevN(c, k).value.cursor.idx == c.idx - k
    ensures PrevN(c, k).Ok? ==>
      forall i :: 0 <= i < k ==> PrevN(c, k).value.shown[i] == c.items[c.idx - 1 - i]
    decreases k
  {
    if k > 0 && c.idx > 0 {
      var m := Prev(c).value;
      PrevNWalk(m.cursor, k - 1);
    }
  }

  /** `k` steps forward succeed exactly when at least `k` newer items exist;
      they show the newer items oldest first and end `k` positions later. */
  lemma {:induction false} NextNWalk<T>(c: Cursor<T>, k: nat)
    requires c.Valid()
    ensures NextN(c, k).Ok? <==> c.idx + k < |c.items|
    ensures NextN(c, k).Err? ==> NextN(c, k).error == OutOfRange
    ensures NextN(c, k).Ok? ==> NextN(c, k).value.cursor.idx == c.idx + k
    ensures NextN(c, k).Ok? ==>
      forall i :: 0 <= i < k ==> NextN(c, k).value.shown[i] == c.items[c.idx + 1 + i]
    decreases k
  {
    if k > 0 && c.idx + 1 < |c.items| {
      var m := Next(c).value;
      NextNWalk(m.cursor, k - 1);
    }
  }

  /** Walking back `k` steps and then forward `k` steps returns to the
      starting cursor, the last item shown being the one current at the start. */
  lemma PrevNThenNextN<T>(c: Cursor<T>, k: nat)
    requires c.Valid() && PrevN(c, k).Ok?
    ensures NextN(PrevN(c, k).value.cursor, k).Ok?
    ensures NextN(PrevN(c, k).value.cursor, k).value.cursor == c
    ensures k > 0 ==> NextN(PrevN(c, k).value.cursor, k).value.shown[k - 1] == c.Current()
  {
    PrevNWalk(c, k);
    var back := PrevN(c, k).value.cursor;
    NextNWalk(back, k);
  }
}
