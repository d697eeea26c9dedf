/** The control server's client table and eval ring, as arrays; each call is a step of `DeferredEval`. */
module DeferRing {
  import opened Common
  import opened DeferredEval

  /** A client slot; `fd` is -1 when it is free. */
  datatype Client = Client(fd: int, connId: nat)

  datatype Deferred = Deferred(fd: int, connId: nat, reqid: nat, chunk: string)

  /** A reply leaving the server: the descriptor it is written to, and the request it answers. */
  datatype Sent = Sent(fd: int, reqid: nat)

  ghost function AsDeferred(e: Eval): Deferred {
    Deferred(e.fd, ConnId(e.serial), e.reqid, e.chunk)
  }

  ghost predicate SlotMatches(c: Client, s: Option<Conn>) {
    match s
    case None => c.fd == -1
    case Some(conn) => c.fd == conn.fd && c.connId == ConnId(conn.serial)
  }

  /** The replies sent for `done[n..]`, in order. */
  ghost function SentFor(done: seq<Done>, n: nat): seq<Sent>
    requires n <= |done|
  {
    if |done| == n then []
    else
      var d := done[|done| - 1];
      SentFor(done[..|done| - 1], n) + if d.sentTo.Some? then [Sent(d.eval.fd, d.eval.reqid)] else []
  }

  /** Each executed eval whose reply went somewhere sends one reply, to its descriptor and under its id. */
  lemma SentForStep(done: seq<Done>, d: Done, n: nat)
    requires n <= |done|
    ensures SentFor(done + [d], n)
            == SentFor(done, n) + if d.sentTo.Some? then [Sent(d.eval.fd, d.eval.reqid)] else []
    ensures SentFor(done, |done|) == []
  {
    assert (done + [d])[..|done|] == done;
  }

  /** The ring index of the k-th waiting eval. */
  function RingAt(head: nat, k: nat): (i: nat)
    ensures i < DEFER_MAX
  {
    (head + k) % DEFER_MAX
  }

  lemma AcceptStep(w: World, fd: nat)
    requires Inv(w) && Enabled(w, Accept(fd))
    ensures var i, w' := FirstFree(w.slots, 0), Step(w, Accept(fd));
      && w'.queue == w.queue
      && (i == MAX_CLIENTS ==> w' == w)
      && (i < MAX_CLIENTS ==> w'.slots == w.slots[i := Some(Conn(fd, w.accepted))] && w'.accepted == w.accepted + 1)
  {
  }

  lemma RingSlotFree(head: nat, count: nat)
    requires head < DEFER_MAX && count < DEFER_MAX
    ensures forall k :: 0 <= k < count ==> RingAt(head, k) != RingAt(head, count)
  {
  }

  lemma RingNext(head: nat)
    requires head < DEFER_MAX
    ensures RingAt(head, 0) == head
    ensures forall k: nat :: RingAt(RingAt(head, 1), k) == RingAt(head, k + 1)
  {
    forall k: nat ensures RingAt(RingAt(head, 1), k) == RingAt(head, k + 1) {
      if head + 1 < DEFER_MAX {
        assert RingAt(head, 1) == head + 1;
      } else {
        assert RingAt(head, 1) == 0;
        assert head + (k + 1) == k + DEFER_MAX;
      }
    }
  }

  lemma RingShift(ring: seq<Deferred>, head: nat, queue: seq<Eval>)
    requires |ring| == DEFER_MAX && head < DEFER_MAX && 0 < |queue|
    requires forall k :: 0 <= k < |queue| ==> ring[RingAt(head, k)] == AsDeferred(queue[k])
    ensures forall k :: 0 <= k < |queue| - 1 ==> ring[RingAt((head + 1) % DEFER_MAX, k)] == AsDeferred(queue[1..][k])
  {
    RingNext(head);
    forall k | 0 <= k < |queue| - 1
      ensures ring[RingAt((head + 1) % DEFER_MAX, k)] == AsDeferred(queue[1..][k])
    {
      assert queue[1..][k] == queue[k + 1] && RingAt((head + 1) % DEFER_MAX, k) == RingAt(head, k + 1);
    }
  }

  class Server {
    const clients: array<Client>
    const ring: array<Deferred>
    var nextConn: nat
    var head: nat
    var count: nat
    ghost var world: World

    ghost predicate Valid()
      reads this, clients, ring
    {
      && Inv(world)
      && clients.Length == MAX_CLIENTS && ring.Length == DEFER_MAX
      && (forall i :: 0 <= i < MAX_CLIENTS ==> SlotMatches(clients[i], world.slots[i]))
      && nextConn == ConnId(world.accepted)
      && head < DEFER_MAX && count == |world.queue|
      && forall k :: 0 <= k < count ==> ring[RingAt(head, k)] == AsDeferred(world.queue[k])
    }

    constructor ()
      ensures Valid() && world == Start() && fresh(clients) && fresh(ring)
    {
      clients := new Client[MAX_CLIENTS](_ => Client(-1, 0));
      ring := new Deferred[DEFER_MAX](_ => Deferred(-1, 0, 0, ""));
      nextConn, head, count := 1, 0, 0;
      world := Start();
      RunKeeps([]);
    }

    method ClientForFd(fd: nat) returns (i: nat)
      requires Valid()
      ensures i == HolderOf(world.slots, fd, 0)
    {
      i := 0;
      while i < clients.Length && clients[i].fd != fd
        invariant 0 <= i <= MAX_CLIENTS && HolderOf(world.slots, fd, 0) == HolderOf(world.slots, fd, i)
      {
        assert SlotMatches(clients[i], world.slots[i]);
        i := i + 1;
      }
      assert i < clients.Length ==> SlotMatches(clients[i], world.slots[i]);
    }

    method FreeSlot() returns (i: nat)
      requires Valid()
      ensures i == FirstFree(world.slots, 0) <= MAX_CLIENTS
      ensures forall k :: 0 <= k < i ==> world.slots[k] != None
    {
      i := 0;
      while i < clients.Length && clients[i].fd >= 0
        invariant 0 <= i <= MAX_CLIENTS && FirstFree(world.slots, 0) == FirstFree(world.slots, i)
        invariant forall k :: 0 <= k < i ==> world.slots[k] != None
      {
        assert SlotMatches(clients[i], world.slots[i]);
        i := i + 1;
      }
      assert i < clients.Length ==> SlotMatches(clients[i], world.slots[i]);
    }

    method TakeSlot(fd: nat) returns (ok: bool)
      requires Valid() && Enabled(world, Accept(fd))
      modifies this, clients
      ensures Valid() && world == Step(old(world), Accept(fd))
      ensures ok <==> exists i :: 0 <= i < MAX_CLIENTS && old(world).slots[i] == None
    {
      StepKeeps(world, Accept(fd));
      var i := FreeSlot();
      ok := i < clients.Length;
      if ok {
        clients[i] := Client(fd, nextConn);
        nextConn := (nextConn + 1) % UINT32;
      }
      AcceptStep(world, fd);
      world := Step(world, Accept(fd));
    }

    /** Claims the first free slot for a new connection; false when all are taken. */
    method ClientAlloc(fd: nat) returns (ok: bool)
      requires Valid() && Enabled(world, Accept(fd))
      modifies this, clients
      ensures Valid() && world == Step(old(world), Accept(fd))
      ensures ok <==> exists i :: 0 <= i < 8 && old(world).slots[i] == None
      ensures ok ==> exists i ::
        0 <= i < 8 && old(world).slots[i] == None && (forall j :: 0 <= j < i ==> old(world).slots[j] != None)
        && world == old(world).(slots := old(world).slots[i := Some(Conn(fd, old(world).accepted))],
                                accepted := old(world).accepted + 1)
      ensures !ok ==> world == old(world)
    {
      AcceptExact(world, fd);
      ok := TakeSlot(fd);
    }

    method ClientClose(i: nat)
      requires Valid() && Enabled(world, Close(i))
      modifies this`world, clients
      ensures Valid() && world == Step(old(world), Close(i))
      ensures world == old(world).(slots := old(world).slots[i := None])
    {
      StepKeeps(world, Close(i));
      clients[i] := Client(-1, 0);
      world := Step(world, Close(i));
    }

    /** Queues an eval of the client in slot `i`; false when eight are waiting already. */
    method DeferPush(i: nat, reqid: nat, chunk: string) returns (ok: bool)
      requires Valid() && Enabled(world, Push(i, reqid, chunk))
      modifies this, ring
      ensures Valid() && world == Step(old(world), Push(i, reqid, chunk))
      ensures ok <==> |old(world).queue| < 8
      ensures ok ==>
        var c := old(world).slots[i].value;
        world == old(world).(queue := old(world).queue + [Eval(c.fd, c.serial, reqid, chunk)],
                             pushed := old(world).pushed + [Eval(c.fd, c.serial, reqid, chunk)])
      ensures !ok ==> world == old(world)
    {
      StepKeeps(world, Push(i, reqid, chunk));
      ok := count < ring.Length;
      if ok {
        assert SlotMatches(clients[i], world.slots[i]);
        RingSlotFree(head, count);
        ring[(head + count) % ring.Length] := Deferred(clients[i].fd, clients[i].connId, reqid, chunk);
        count := count + 1;
      }
      world := Step(world, Push(i, reqid, chunk));
    }

    /** Replies to an eval that was just run, if its connection is still there. */
    method ReplyTo(d: Deferred, ghost e: Eval) returns (sent: seq<Sent>)
      requires Valid() && d == AsDeferred(e)
      ensures sent == if Executed(world.slots, e).sentTo.Some? then [Sent(e.fd, e.reqid)] else []
    {
      var j := ClientForFd(d.fd);
      assert j < MAX_CLIENTS ==> SlotMatches(clients[j], world.slots[j]);
      sent := if j < clients.Length && clients[j].connId == d.connId then [Sent(d.fd, d.reqid)] else [];
    }

    /** Drops the oldest eval from the ring, now that it was run. */
    method Advance()
      requires Valid() && count > 0
      modifies this`head, this`count, this`world
      ensures Valid() && world == DrainOne(old(world))
    {
      DrainOneKeeps(world);
      RingShift(ring[..], head, world.queue);
      head := (head + 1) % ring.Length;
      count := count - 1;
      world := DrainOne(world);
    }

    /** Takes the oldest eval off the ring, runs it, and replies if its connection is still there. */
    method Pop() returns (sent: seq<Sent>)
      requires Valid() && count > 0
      modifies this
      ensures Valid() && world == DrainOne(old(world)) && nextConn == old(nextConn)
      ensures sent == (var d := world.done[|world.done| - 1];
                       if d.sentTo.Some? then [Sent(d.eval.fd, d.eval.reqid)] else [])
    {
      assert RingAt(head, 0) == head;
      sent := ReplyTo(ring[head], world.queue[0]);
      Advance();
    }

    /** The main loop's safe point: runs everything that waits. */
    method Drain() returns (sent: seq<Sent>)
      requires Valid()
      modifies this
      ensures Valid() && world == Step(old(world), Op.Drain) && count == 0
      ensures |world.done| >= |old(world).done| && sent == SentFor(world.done, |old(world).done|)
    {
      sent := [];
      while count > 0
        invariant Valid() && DrainAll(world) == DrainAll(old(world))
        invariant |world.done| >= |old(world).done| && sent == SentFor(world.done, |old(world).done|)
      {
        ghost var done := world.done;
        var more := Pop();
        assert world.done[..|world.done| - 1] == done;
        sent := sent + more;
      }
    }
  }
}
