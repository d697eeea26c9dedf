/**
 * Deferred `eval` requests: client slots, connection ids, and the bounded ring that holds
 * evals until the main loop's safe point.
 */
module DeferredEval {
  import opened Common

  const MAX_CLIENTS: nat := 8
  const DEFER_MAX: nat := 8
  const UINT32: nat := 0x1_0000_0000

  // ---- The protocol as a step system ----

  /** A connection: its descriptor, and its number among all connections ever accepted. */
  datatype Conn = Conn(fd: nat, serial: nat)

  datatype Eval = Eval(fd: nat, serial: nat, reqid: nat, chunk: string)

  /**
   * An executed eval: was its issuer still connected then, did another connection hold its
   * descriptor under its id, and which connection got the reply?
   */
  datatype Done = Done(eval: Eval, issuerOpen: bool, stranger: bool, sentTo: Option<nat>)

  datatype World = World(
    slots: seq<Option<Conn>>, accepted: nat, queue: seq<Eval>, pushed: seq<Eval>, done: seq<Done>)

  /** The 32-bit id the n-th connection gets; ids start at 1 and wrap. */
  function ConnId(serial: nat): nat {
    (serial + 1) % UINT32
  }

  function FirstFree(slots: seq<Option<Conn>>, i: nat): (j: nat)
    requires i <= |slots|
    ensures i <= j <= |slots| && (j < |slots| ==> slots[j].None?)
    decreases |slots| - i
  {
    if i == |slots| || slots[i].None? then i else FirstFree(slots, i + 1)
  }

  function HolderOf(slots: seq<Option<Conn>>, fd: nat, i: nat): (j: nat)
    requires i <= |slots|
    ensures i <= j <= |slots| && (j < |slots| ==> slots[j].Some? && slots[j].value.fd == fd)
    ensures forall k :: i <= k < j ==> !(slots[k].Some? && slots[k].value.fd == fd)
    decreases |slots| - i
  {
    if i == |slots| || (slots[i].Some? && slots[i].value.fd == fd) then i else HolderOf(slots, fd, i + 1)
  }

  datatype Op =
    | Accept(fd: nat)
    | Close(slot: nat)
    | Push(slot: nat, reqid: nat, chunk: string)
    | Drain

  /** What the kernel and the event loop can do: a descriptor is handed out only when it is free. */
  predicate Enabled(w: World, op: Op) {
    match op
    case Accept(fd) => forall i :: 0 <= i < |w.slots| ==> w.slots[i].Some? ==> w.slots[i].value.fd != fd
    case Close(i) => i < |w.slots| && w.slots[i].Some?
    case Push(i, _, _) => i < |w.slots| && w.slots[i].Some?
    case Drain => true
  }

  predicate IssuerOpen(slots: seq<Option<Conn>>, serial: nat) {
    exists i :: 0 <= i < |slots| && slots[i] != None && slots[i].value.serial == serial
  }

  /** A later connection sits on the descriptor of `e` and, ids having wrapped, has its id. */
  predicate Stranger(slots: seq<Option<Conn>>, e: Eval) {
    exists i :: 0 <= i < |slots| && slots[i] != None
                && slots[i].value.fd == e.fd && slots[i].value.serial != e.serial
                && ConnId(slots[i].value.serial) == ConnId(e.serial)
  }

  /** Runs an eval and replies if its descriptor still carries its connection id. */
  function Executed(slots: seq<Option<Conn>>, e: Eval): Done {
    var j := HolderOf(slots, e.fd, 0);
    var sentTo := if j < |slots| && ConnId(slots[j].value.serial) == ConnId(e.serial)
                  then Some(slots[j].value.serial) else None;
    Done(e, IssuerOpen(slots, e.serial), Stranger(slots, e), sentTo)
  }

  /** Runs the oldest eval. */
  function DrainOne(w: World): World
    requires w.queue != []
  {
    w.(queue := w.queue[1..], done := w.done + [Executed(w.slots, w.queue[0])])
  }

  function DrainAll(w: World): World
    decreases |w.queue|
  {
    if w.queue == [] then w else DrainAll(DrainOne(w))
  }

  function Step(w: World, op: Op): World
    requires Enabled(w, op)
  {
    match op
    case Accept(fd) =>
      var i := FirstFree(w.slots, 0);
      if i == |w.slots| then w
      else w.(slots := w.slots[i := Some(Conn(fd, w.accepted))], accepted := w.accepted + 1)
    case Close(i) => w.(slots := w.slots[i := None])
    case Push(i, reqid, chunk) =>
      if |w.queue| >= DEFER_MAX then w
      else
        var e := Eval(w.slots[i].value.fd, w.slots[i].value.serial, reqid, chunk);
        w.(queue := w.queue + [e], pushed := w.pushed + [e])
    case Drain => DrainAll(w)
  }

  function Start(): World {
    World([None, None, None, None, None, None, None, None], 0, [], [], [])
  }

  /** The state after a sequence of operations, if each was possible when it came. */
  function After(ops: seq<Op>): Option<World> {
    if ops == [] then Some(Start())
    else
      var before, last := After(ops[..|ops| - 1]), ops[|ops| - 1];
      if before.Some? && Enabled(before.value, last) then Some(Step(before.value, last)) else None
  }

  function EvalsOf(done: seq<Done>): seq<Eval> {
    seq(|done|, k requires 0 <= k < |done| => done[k].eval)
  }

  // ---- What every step keeps ----

  ghost predicate SlotsOk(slots: seq<Option<Conn>>, accepted: nat) {
    && |slots| == MAX_CLIENTS
    && (forall i :: 0 <= i < |slots| ==> slots[i].Some? ==> slots[i].value.serial < accepted)
    && (forall i, j :: 0 <= i < j < |slots| ==> slots[i].Some? ==> slots[j].Some? ==>
          slots[i].value.fd != slots[j].value.fd && slots[i].value.serial != slots[j].value.serial)
  }

  /** A waiting eval names a connection that existed, and its descriptor for as long as it is open. */
  ghost predicate EvalOk(e: Eval, slots: seq<Option<Conn>>, accepted: nat) {
    && e.serial < accepted
    && forall i :: 0 <= i < |slots| ==> slots[i].Some? ==> slots[i].value.serial == e.serial ==>
         slots[i].value.fd == e.fd
  }

  /** The reply went to the connection that asked, if that was still open, and else to nobody. */
  predicate RightlyAnswered(d: Done) {
    d.sentTo == if d.issuerOpen then Some(d.eval.serial) else None
  }

  /** Exactly a stranger on the descriptor makes the reply go wrong, and early on there is none. */
  ghost predicate DoneOk(d: Done, accepted: nat) {
    && (RightlyAnswered(d) <==> !d.stranger)
    && (d.stranger ==> d.sentTo != None && d.sentTo != Some(d.eval.serial))
    && (accepted <= UINT32 ==> !d.stranger)
  }

  ghost predicate Inv(w: World) {
    && SlotsOk(w.slots, w.accepted)
    && |w.queue| <= DEFER_MAX
    && (forall k :: 0 <= k < |w.queue| ==> EvalOk(w.queue[k], w.slots, w.accepted))
    && w.pushed == EvalsOf(w.done) + w.queue
    && forall k :: 0 <= k < |w.done| ==> DoneOk(w.done[k], w.accepted)
  }

  lemma SameIdSameConnection(a: nat, b: nat)
    requires a < UINT32 && b < UINT32 && ConnId(a) == ConnId(b)
    ensures a == b
  {
  }

  lemma ExecutedExact(slots: seq<Option<Conn>>, e: Eval, accepted: nat)
    requires SlotsOk(slots, accepted) && EvalOk(e, slots, accepted)
    ensures DoneOk(Executed(slots, e), accepted)
  {
    var j, d := HolderOf(slots, e.fd, 0), Executed(slots, e);
    if d.issuerOpen {
      var i :| 0 <= i < |slots| && slots[i] != None && slots[i].value.serial == e.serial;
      assert j == i;
    }
    if d.stranger {
      var i :| 0 <= i < |slots| && slots[i] != None && slots[i].value.fd == e.fd
               && slots[i].value.serial != e.serial && ConnId(slots[i].value.serial) == ConnId(e.serial);
      assert j == i;
      if accepted <= UINT32 {
        SameIdSameConnection(slots[i].value.serial, e.serial);
      }
    }
  }

  /** The reply goes wrong exactly when a stranger with the same id holds the descriptor. */
  lemma DrainOneExact(w: World)
    requires Inv(w) && w.queue != []
    ensures RightlyAnswered(DrainOne(w).done[|w.done|]) <==> !Stranger(w.slots, w.queue[0])
  {
    ExecutedExact(w.slots, w.queue[0], w.accepted);
  }

  lemma DrainOneKeeps(w: World)
    requires Inv(w) && w.queue != []
    ensures Inv(DrainOne(w)) && DrainOne(w).accepted == w.accepted
  {
    var e, w' := w.queue[0], DrainOne(w);
    ExecutedExact(w.slots, e, w.accepted);
    assert EvalsOf(w'.done) == EvalsOf(w.done) + [e];
    assert w.queue == [e] + w'.queue;
    assert forall k :: 0 <= k < |w'.queue| ==> w'.queue[k] == w.queue[k + 1];
  }

  lemma {:induction false} DrainAllKeeps(w: World)
    requires Inv(w)
    ensures Inv(DrainAll(w)) && DrainAll(w).queue == [] && DrainAll(w).pushed == w.pushed
    decreases |w.queue|
  {
    if w.queue != [] {
      DrainOneKeeps(w);
      DrainAllKeeps(DrainOne(w));
    }
  }

  /** Draining runs every waiting eval against the connections of that moment, in order. */
  lemma {:induction false} DrainAllRuns(w: World)
    ensures DrainAll(w) == w.(queue := [], done := DrainAll(w).done)
    ensures |DrainAll(w).done| == |w.done| + |w.queue| && w.done <= DrainAll(w).done
    ensures forall k :: 0 <= k < |w.queue| ==> DrainAll(w).done[|w.done| + k] == Executed(w.slots, w.queue[k])
    decreases |w.queue|
  {
    if w.queue != [] {
      var w' := DrainOne(w);
      DrainAllRuns(w');
      forall k | 0 <= k < |w.queue|
        ensures DrainAll(w).done[|w.done| + k] == Executed(w.slots, w.queue[k])
      {
        if k > 0 {
          assert w'.queue[k - 1] == w.queue[k];
          assert DrainAll(w').done[|w'.done| + (k - 1)] == Executed(w.slots, w.queue[k]);
        }
      }
    }
  }

  /** The same for everything that waits when the main loop drains. */
  lemma DrainAllExact(w: World, k: nat)
    requires Inv(w) && k < |w.queue|
    ensures |w.done| + k < |DrainAll(w).done| && DrainAll(w).done[|w.done| + k].eval == w.queue[k]
    ensures RightlyAnswered(DrainAll(w).done[|w.done| + k]) <==> !Stranger(w.slots, w.queue[k])
  {
    DrainAllRuns(w);
    ExecutedExact(w.slots, w.queue[k], w.accepted);
  }

  lemma StepKeeps(w: World, op: Op)
    requires Inv(w) && Enabled(w, op)
    ensures Inv(Step(w, op))
  {
    var w' := Step(w, op);
    match op {
      case Accept(fd) =>
        forall k | 0 <= k < |w.queue| ensures EvalOk(w'.queue[k], w'.slots, w'.accepted) {
          assert EvalOk(w.queue[k], w.slots, w.accepted);
        }
      case Close(i) =>
        forall k | 0 <= k < |w.queue| ensures EvalOk(w'.queue[k], w'.slots, w'.accepted) {
          assert EvalOk(w.queue[k], w.slots, w.accepted);
        }
      case Push(i, reqid, chunk) =>
      case Drain => DrainAllKeeps(w);
    }
  }

  lemma {:induction false} RunKeeps(ops: seq<Op>)
    ensures After(ops).Some? ==> Inv(After(ops).value)
    decreases |ops|
  {
    if ops == [] {
      assert EvalsOf([]) == [];
    } else {
      var before, last := After(ops[..|ops| - 1]), ops[|ops| - 1];
      RunKeeps(ops[..|ops| - 1]);
      if before.Some? && Enabled(before.value, last) {
        StepKeeps(before.value, last);
      }
    }
  }

  /**
   * Over every run, however many connections it has: each accepted eval is run exactly once and
   * in push order, at most eight wait, and a reply goes to the issuing connection if that is
   * still open, and else to nobody, if and only if no stranger with its id held its descriptor.
   */
  lemma RunExact(ops: seq<Op>)
    requires After(ops).Some?
    ensures var w := After(ops).value;
      && w.pushed == EvalsOf(w.done) + w.queue && |w.queue| <= 8
      && forall k :: 0 <= k < |w.done| ==> (RightlyAnswered(w.done[k]) <==> !w.done[k].stranger)
  {
    RunKeeps(ops);
  }

  /** Up to 2^32 connections there is no stranger: a later owner of a descriptor gets no reply. */
  lemma RunSafe(ops: seq<Op>)
    ensures After(ops).Some? ==>
              var w := After(ops).value;
              && Inv(w)
              && w.pushed == EvalsOf(w.done) + w.queue && |w.queue| <= DEFER_MAX
              && (w.accepted <= UINT32 ==> forall k :: 0 <= k < |w.done| ==> RightlyAnswered(w.done[k]))
  {
    RunKeeps(ops);
    if After(ops).Some? {
      RunExact(ops);
    }
  }

  lemma OneMore(ops: seq<Op>, op: Op)
    requires After(ops).Some? && Enabled(After(ops).value, op)
    ensures After(ops + [op]) == Some(Step(After(ops).value, op))
  {
    assert (ops + [op])[..|ops|] == ops;
  }

  // ---- Whose eval it is ----

  lemma {:induction false} FirstFreeIsFirst(slots: seq<Option<Conn>>, i: nat)
    requires i <= |slots|
    ensures forall j :: i <= j < FirstFree(slots, i) ==> slots[j] != None
    decreases |slots| - i
  {
    if i < |slots| && slots[i] != None {
      FirstFreeIsFirst(slots, i + 1);
    }
  }

  /** Accepting takes the first free slot for the new connection, if there is one. */
  lemma AcceptExact(w: World, fd: nat)
    requires Inv(w) && Enabled(w, Accept(fd))
    ensures var w' := Step(w, Accept(fd));
      if exists i :: 0 <= i < 8 && w.slots[i] == None then
        exists i :: 0 <= i < 8 && w.slots[i] == None && (forall j :: 0 <= j < i ==> w.slots[j] != None)
                    && w' == w.(slots := w.slots[i := Some(Conn(fd, w.accepted))], accepted := w.accepted + 1)
      else w' == w
  {
    var i := FirstFree(w.slots, 0);
    if i < |w.slots| {
      assert w.slots[i] == None;
    }
    assert forall j :: 0 <= j < i ==> w.slots[j] != None by {
      FirstFreeIsFirst(w.slots, 0);
    }
  }

  /** After any run, an eval is queued last, for the connection in the slot it came from. */
  lemma PushExact(ops: seq<Op>, w: World, i: nat, fd: nat, serial: nat, reqid: nat, chunk: string)
    requires After(ops) == Some(w) && i < |w.slots| && w.slots[i] == Some(Conn(fd, serial))
    ensures After(ops + [Push(i, reqid, chunk)])
            == Some(if |w.queue| < 8 then
                      w.(queue := w.queue + [Eval(fd, serial, reqid, chunk)],
                         pushed := w.pushed + [Eval(fd, serial, reqid, chunk)])
                    else w)
  {
    OneMore(ops, Push(i, reqid, chunk));
  }

  lemma StepPushed(w: World, op: Op)
    requires Enabled(w, op)
    ensures w.pushed <= Step(w, op).pushed
  {
    if op.Drain? {
      DrainAllRuns(w);
    }
  }

  /** What was pushed stays on record. */
  lemma {:induction false} PushedStays(ops: seq<Op>, more: seq<Op>)
    requires After(ops).Some? && After(ops + more).Some?
    ensures After(ops).value.pushed <= After(ops + more).value.pushed
    decreases |more|
  {
    if more == [] {
      assert ops + more == ops;
    } else {
      var front := more[..|more| - 1];
      assert (ops + more)[..|ops + more| - 1] == ops + front;
      PushedStays(ops, front);
      StepPushed(After(ops + front).value, more[|more| - 1]);
    }
  }

  /**
   * Over every run: an eval that connection `serial` pushes is, once executed, answered to that
   * connection if it is still open then, and else to nobody, unless a stranger has its descriptor.
   */
  lemma PusherAnswered(ops: seq<Op>, w: World, i: nat, fd: nat, serial: nat, reqid: nat, chunk: string,
                       more: seq<Op>, v: World)
    requires After(ops) == Some(w) && i < |w.slots| && w.slots[i] == Some(Conn(fd, serial)) && |w.queue| < 8
    requires After(ops + [Push(i, reqid, chunk)] + more) == Some(v)
    ensures |w.pushed| < |v.pushed| && v.pushed[|w.pushed|] == Eval(fd, serial, reqid, chunk)
    ensures |w.pushed| < |v.done| ==>
              var d := v.done[|w.pushed|];
              && d.eval == Eval(fd, serial, reqid, chunk)
              && (!d.stranger ==> d.sentTo == if d.issuerOpen then Some(serial) else None)
              && (d.stranger ==> d.sentTo != Some(serial) && d.sentTo != None)
  {
    var all := ops + [Push(i, reqid, chunk)] + more;
    PushExact(ops, w, i, fd, serial, reqid, chunk);
    PushedStays(ops + [Push(i, reqid, chunk)], more);
    RunKeeps(all);
    if |w.pushed| < |v.done| {
      assert v.pushed[|w.pushed|] == EvalsOf(v.done)[|w.pushed|];
      assert DoneOk(v.done[|w.pushed|], v.accepted);
    }
  }

  /** Executing an eval, without the helper notions: who holds its descriptor, and under which id. */
  lemma ExecutedMeans(slots: seq<Option<Conn>>, e: Eval, accepted: nat)
    requires SlotsOk(slots, accepted) && EvalOk(e, slots, accepted)
    ensures var d := Executed(slots, e);
      && d.eval == e
      && (d.issuerOpen <==> Some(Conn(e.fd, e.serial)) in slots)
      && (d.stranger <==> exists i :: 0 <= i < |slots| && slots[i].Some? && slots[i].value.fd == e.fd
                            && slots[i].value.serial != e.serial
                            && (slots[i].value.serial + 1) % 0x1_0000_0000 == (e.serial + 1) % 0x1_0000_0000)
  {
    var d := Executed(slots, e);
    if Some(Conn(e.fd, e.serial)) in slots {
      var i :| 0 <= i < |slots| && slots[i] == Some(Conn(e.fd, e.serial));
      assert d.issuerOpen;
    }
    if d.issuerOpen {
      var i :| 0 <= i < |slots| && slots[i] != None && slots[i].value.serial == e.serial;
      assert slots[i] == Some(Conn(e.fd, e.serial));
    }
  }

  /** After any run, what the next drain gets wrong can be told from the connections before it. */
  lemma NextDrainExact(ops: seq<Op>, w: World, k: nat)
    requires After(ops) == Some(w) && k < |w.queue|
    ensures After(ops + [Drain]) == Some(DrainAll(w))
    ensures |w.done| + k < |DrainAll(w).done| && DrainAll(w).done[|w.done| + k].eval == w.queue[k]
    ensures RightlyAnswered(DrainAll(w).done[|w.done| + k]) <==> !Stranger(w.slots, w.queue[k])
  {
    RunKeeps(ops);
    DrainAllExact(w, k);
    OneMore(ops, Drain);
  }

  /** A client asks for an eval and hangs up; then `n` more come and go on the same descriptor. */
  function Churn(fd: nat, chunk: string, n: nat): seq<Op> {
    if n == 0 then [] + [Accept(fd)] + [Push(0, 1, chunk)] + [Close(0)]
    else Churn(fd, chunk, n - 1) + [Accept(fd)] + [Close(0)]
  }

  /** Only descriptor `fd` is open, as connection `serial`. */
  function Alone(fd: nat, serial: nat): seq<Option<Conn>> {
    [Some(Conn(fd, serial)), None, None, None, None, None, None, None]
  }

  /** Accepting a connection into the empty table, and closing it. */
  lemma FirstIn(w: World, fd: nat)
    requires w.slots == Start().slots
    ensures Enabled(w, Accept(fd))
    ensures Step(w, Accept(fd)) == w.(slots := Alone(fd, w.accepted), accepted := w.accepted + 1)
  {
    assert FirstFree(w.slots, 0) == 0;
  }

  lemma LastOut(w: World, fd: nat, serial: nat)
    requires w.slots == Alone(fd, serial)
    ensures Enabled(w, Close(0)) && Step(w, Close(0)) == w.(slots := Start().slots)
  {
  }

  lemma FirstPush(w: World, fd: nat, chunk: string)
    requires w.slots == Alone(fd, 0) && w.queue == w.pushed == []
    ensures Enabled(w, Push(0, 1, chunk))
    ensures var e := Eval(fd, 0, 1, chunk); Step(w, Push(0, 1, chunk)) == w.(queue := [e], pushed := [e])
  {
  }

  /** A client that comes and goes. */
  lemma InAndOut(ops: seq<Op>, w: World, fd: nat)
    requires After(ops) == Some(w) && w.slots == Start().slots
    ensures After(ops + [Accept(fd)] + [Close(0)]) == Some(w.(accepted := w.accepted + 1))
  {
    FirstIn(w, fd);
    OneMore(ops, Accept(fd));
    var open := w.(slots := Alone(fd, w.accepted), accepted := w.accepted + 1);
    LastOut(open, fd, w.accepted);
    OneMore(ops + [Accept(fd)], Close(0));
  }

  lemma AskAndLeave(fd: nat, chunk: string)
    ensures var e := Eval(fd, 0, 1, chunk);
      After([] + [Accept(fd)] + [Push(0, 1, chunk)] + [Close(0)]) == Some(World(Start().slots, 1, [e], [e], []))
  {
    var e := Eval(fd, 0, 1, chunk);
    FirstIn(Start(), fd);
    OneMore([], Accept(fd));
    FirstPush(World(Alone(fd, 0), 1, [], [], []), fd, chunk);
    OneMore([] + [Accept(fd)], Push(0, 1, chunk));
    LastOut(World(Alone(fd, 0), 1, [e], [e], []), fd, 0);
    OneMore([] + [Accept(fd)] + [Push(0, 1, chunk)], Close(0));
  }

  lemma {:induction false} AfterChurn(fd: nat, chunk: string, n: nat)
    ensures var e := Eval(fd, 0, 1, chunk);
      After(Churn(fd, chunk, n)) == Some(World(Start().slots, n + 1, [e], [e], []))
  {
    if n == 0 {
      AskAndLeave(fd, chunk);
    } else {
      AfterChurn(fd, chunk, n - 1);
      InAndOut(Churn(fd, chunk, n - 1), After(Churn(fd, chunk, n - 1)).value, fd);
    }
  }

  /** The bound on connections is needed: once ids have wrapped, a stranger gets the reply. */
  lemma WrapMisdelivers(fd: nat, chunk: string, n: nat)
    requires (n + 1) % UINT32 == 0
    ensures var ops := Churn(fd, chunk, n) + [Accept(fd)] + [Drain];
      && After(ops).Some? && |After(ops).value.done| == 1
      && var d := After(ops).value.done[0]; d.stranger && d.sentTo == Some(n + 1) && !RightlyAnswered(d)
  {
    var ops, e := Churn(fd, chunk, n), Eval(fd, 0, 1, chunk);
    AfterChurn(fd, chunk, n);
    FirstIn(After(ops).value, fd);
    OneMore(ops, Accept(fd));
    OneMore(ops + [Accept(fd)], Drain);
    var w := After(ops + [Accept(fd)]).value;
    assert w.slots == Alone(fd, n + 1);
    assert HolderOf(w.slots, fd, 0) == 0;
    assert ConnId(n + 1) == ConnId(0) == 1;
    assert w.slots[0].value.serial != e.serial;
    assert DrainAll(DrainOne(w)) == DrainOne(w);
  }
}
