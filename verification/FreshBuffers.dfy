/** Which of the window's buffers holds the visible picture. */
module FreshBuffers {
  import opened Common

  const KNOWN_MAX: nat := 4

  /** A render buffer handle; the null handle is not a buffer. */
  type Buffer = nat

  datatype Known = Known(buf: Buffer, isFresh: bool)

  datatype Table = Table(known: seq<Known>, current: nat, stale: bool)

  function Tracked(known: seq<Known>): (buffers: seq<Buffer>)
    ensures |buffers| == |known|
  {
    seq(|known|, i requires 0 <= i < |known| => known[i].buf)
  }

  /** The entry of a buffer, or the end of the table. */
  function EntryOf(known: seq<Known>, buf: Buffer): (j: nat)
    ensures j <= |known| && (j < |known| ==> known[j].buf == buf)
    ensures forall k :: 0 <= k < j ==> known[k].buf != buf
  {
    var tracked := Tracked(known);
    assert forall k :: 0 <= k < |known| ==> known[k].buf == tracked[k];
    IndexOf(tracked, buf, 0)
  }

  predicate AllHandedOut(known: seq<Known>, buffers: seq<Buffer>) {
    forall i :: 0 <= i < |known| ==> known[i].buf in buffers
  }

  /** The table entry for the handed-out buffer `buffers[0]`; `buffers` is the window's current set. */
  function Latch(t: Table, buffers: seq<Buffer>): Table
    requires buffers != []
  {
    var known := if AllHandedOut(t.known, buffers) then t.known else [];
    var i := EntryOf(known, buffers[0]);
    var entry := Known(buffers[0], false);
    if i < |known| then Table(known, i, !known[i].isFresh)
    else if |known| < KNOWN_MAX then Table(known + [entry], |known|, true)
    else Table(known[0 := entry], 0, true)
  }

  function EndFrame(t: Table, wasFull: bool): Table {
    if wasFull then
      t.(known := seq(|t.known|, i requires 0 <= i < |t.known| => Known(t.known[i].buf, i == t.current)))
    else t
  }

  predicate Distinct(buffers: seq<Buffer>) {
    forall i, j :: 0 <= i < j < |buffers| ==> buffers[i] != buffers[j]
  }

  /** Tracked buffers are distinct, and a fresh one is the one the last completed frame painted. */
  ghost predicate TableOk(t: Table, painted: Option<Buffer>) {
    && |t.known| <= KNOWN_MAX
    && (forall i, j :: 0 <= i < j < |t.known| ==> t.known[i].buf != t.known[j].buf)
    && forall i :: 0 <= i < |t.known| ==> t.known[i].isFresh ==> painted == Some(t.known[i].buf)
  }

  lemma AtMostOneFresh(t: Table, painted: Option<Buffer>, i: nat, j: nat)
    requires TableOk(t, painted) && i < |t.known| && j < |t.known|
    ensures t.known[i].isFresh && t.known[j].isFresh ==> i == j
  {
  }

  lemma {:induction false} Pigeonhole(a: seq<Buffer>, b: seq<Buffer>)
    requires Distinct(a) && forall i :: 0 <= i < |a| ==> a[i] in b
    ensures |a| <= |b|
    decreases |a|
  {
    if a != [] {
      var last := a[|a| - 1];
      var k :| 0 <= k < |b| && b[k] == last;
      var rest := b[..k] + b[k + 1..];
      var front := a[..|a| - 1];
      forall i | 0 <= i < |front| ensures front[i] in rest {
        assert front[i] == a[i] != last;
        var m :| 0 <= m < |b| && b[m] == a[i];
        assert rest[if m < k then m else m - 1] == a[i];
      }
      Pigeonhole(front, rest);
    }
  }

  /** With at most four distinct buffers in the window the table never overflows. */
  lemma FallbackUnreachable(t: Table, painted: Option<Buffer>, buffers: seq<Buffer>)
    requires TableOk(t, painted) && 1 <= |buffers| <= 4 && Distinct(buffers)
    requires AllHandedOut(t.known, buffers) && EntryOf(t.known, buffers[0]) == |t.known|
    ensures |t.known| < 4
  {
    Pigeonhole(Tracked(t.known) + [buffers[0]], buffers);
  }

  lemma LatchKeeps(t: Table, painted: Option<Buffer>, buffers: seq<Buffer>)
    requires TableOk(t, painted) && 1 <= |buffers| <= KNOWN_MAX && Distinct(buffers)
    ensures var t' := Latch(t, buffers);
      && TableOk(t', painted)
      && t'.current < |t'.known| && t'.known[t'.current].buf == buffers[0]
      && t'.stale == !t'.known[t'.current].isFresh
      && (AllHandedOut(t.known, buffers) ==> t.known <= t'.known)
  {
    var known := if AllHandedOut(t.known, buffers) then t.known else [];
    if EntryOf(known, buffers[0]) == |known| {
      FallbackUnreachable(t.(known := known), painted, buffers);
    }
  }

  /** Painting a stale buffer is always full, so afterwards the painted buffer is the fresh one. */
  lemma EndFrameKeeps(t: Table, painted: Option<Buffer>, wasFull: bool)
    requires TableOk(t, painted) && t.current < |t.known| && t.stale == !t.known[t.current].isFresh
    requires t.stale ==> wasFull
    ensures TableOk(EndFrame(t, wasFull), Some(t.known[t.current].buf))
    ensures EndFrame(t, wasFull).known[t.current] == Known(t.known[t.current].buf, true)
  {
  }

  /** A buffer handed out again right after its frame is not stale: nothing forces a full paint. */
  lemma LatchedAgain(t: Table, painted: Option<Buffer>, buffers: seq<Buffer>, wasFull: bool)
    requires TableOk(t, painted) && 1 <= |buffers| <= KNOWN_MAX && Distinct(buffers)
    requires Latch(t, buffers).stale ==> wasFull
    ensures !Latch(EndFrame(Latch(t, buffers), wasFull), buffers).stale
  {
    LatchKeeps(t, painted, buffers);
    var latched := Latch(t, buffers);
    EndFrameKeeps(latched, painted, wasFull);
    var ended := EndFrame(latched, wasFull);
    assert AllHandedOut(ended.known, buffers) by {
      assert forall i :: 0 <= i < |ended.known| ==> ended.known[i].buf == latched.known[i].buf;
    }
    var i := EntryOf(ended.known, buffers[0]);
    assert i == latched.current;
  }

  /** The renderer's table, updated in place. */
  class BufferTable {
    const known: array<Known>
    var count: nat
    var currentIdx: nat
    var currentStale: bool
    ghost var painted: Option<Buffer>

    ghost function Value(): Table
      reads this, known
      requires count <= known.Length
    {
      Table(known[..count], currentIdx, currentStale)
    }

    ghost predicate Valid()
      reads this, known
    {
      known.Length == KNOWN_MAX && count <= KNOWN_MAX && TableOk(Value(), painted)
    }

    constructor ()
      ensures Valid() && Value() == Table([], 0, false) && painted == None && fresh(known)
    {
      known := new Known[KNOWN_MAX](_ => Known(0, false));
      count, currentIdx, currentStale, painted := 0, 0, false, None;
    }

    /** Drops the table if a tracked buffer is no longer in the window. */
    method Refresh(buffers: seq<Buffer>)
      requires Valid()
      modifies this`count
      ensures count <= old(count)
      ensures known[..count] == if AllHandedOut(old(known[..count]), buffers) then old(known[..count]) else []
    {
      var i := 0;
      while i < count
        invariant 0 <= i <= count && count == old(count)
        invariant forall k :: 0 <= k < i ==> known[k].buf in buffers
      {
        var found, j := false, 0;
        while j < |buffers| && !found
          invariant 0 <= j <= |buffers| && (found ==> known[i].buf in buffers)
          invariant !found ==> forall k :: 0 <= k < j ==> buffers[k] != known[i].buf
          decreases |buffers| - j, !found
        {
          if known[i].buf == buffers[j] { found := true; } else { j := j + 1; }
        }
        if !found {
          assert known[..count][i].buf !in buffers;
          count := 0;
          return;
        }
        i := i + 1;
      }
    }

    method FindKnown(buf: Buffer) returns (i: nat)
      requires count <= known.Length
      ensures i == EntryOf(known[..count], buf)
    {
      i := 0;
      ghost var tracked := Tracked(known[..count]);
      while i < count && known[i].buf != buf
        invariant 0 <= i <= count && IndexOf(tracked, buf, 0) == IndexOf(tracked, buf, i)
      {
        i := i + 1;
      }
    }

    method LatchBuffer(buffers: seq<Buffer>)
      requires Valid() && 1 <= |buffers| <= KNOWN_MAX && Distinct(buffers)
      modifies this, known
      ensures Valid() && painted == old(painted)
      ensures Value() == Latch(old(Value()), buffers)
      ensures currentIdx < count && known[currentIdx].buf == buffers[0]
    {
      LatchKeeps(Value(), painted, buffers);
      Refresh(buffers);
      var i := FindKnown(buffers[0]);
      if i == count {
        if count < KNOWN_MAX {
          count := count + 1;
        } else {
          i := 0;
        }
        known[i] := Known(buffers[0], false);
      }
      currentIdx := i;
      currentStale := !known[i].isFresh;
      assert known[..count] == Latch(old(Value()), buffers).known;
    }

    /** The window gives no buffer, or none that can be drawn on. */
    method FailLatch()
      requires Valid()
      modifies this`currentStale
      ensures Valid() && Value() == old(Value()).(stale := true)
    {
      currentStale := true;
    }

    method FinishFrame(wasFull: bool)
      requires Valid() && currentIdx < count && currentStale == !known[currentIdx].isFresh
      requires currentStale ==> wasFull
      modifies this`painted, known
      ensures Valid() && Value() == EndFrame(old(Value()), wasFull)
      ensures painted == Some(old(known[currentIdx].buf)) && known[currentIdx].isFresh
    {
      EndFrameKeeps(Value(), painted, wasFull);
      if wasFull {
        ghost var before := known[..count];
        for i := 0 to count
          invariant forall k :: i <= k < count ==> known[k] == before[k]
          invariant forall k :: 0 <= k < i ==> known[k] == Known(before[k].buf, k == currentIdx)
        {
          known[i] := Known(known[i].buf, i == currentIdx);
        }
        assert known[..count] == EndFrame(Table(before, currentIdx, currentStale), wasFull).known;
      }
      assert Value() == EndFrame(old(Value()), wasFull);
      assert known[currentIdx] == Value().known[currentIdx];
      painted := Some(known[currentIdx].buf);
    }
  }
}
