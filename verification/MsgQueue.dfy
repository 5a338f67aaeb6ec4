/** The circular message queue of trfs/trfs_msgq.c. */
module MsgQueue {

  const ERR_BASE := 0x00F00000
  const ERR_MQ_FULL := -(ERR_BASE + 2)
  const ERR_MQ_EMPTY := -(ERR_BASE + 3)
  const EXIT_WAITING_QUEUE := -2
  const FLUSH_TIMEOUT := -99

  /** A message slot: the record itself is not copied, `data` stands for the pointer to it. */
  datatype Slot<T> = Slot(pri: int, len: int, data: T)

  /** The state of a queue; `slots` are its `maxMsgs` slots. */
  datatype Ring<T> = Ring(slots: seq<Slot<T>>, counter: nat, readIndex: nat, writeIndex: nat) {

    ghost predicate Valid() {
      && 0 < |slots|
      && counter <= |slots|
      && readIndex < |slots|
      && writeIndex == (readIndex + counter) % |slots|
    }

    predicate Full() { counter == |slots| }

    /** The live slots, read cyclically from the read index. */
    ghost function Queued(): (q: seq<Slot<T>>)
      requires Valid()
      ensures |q| == counter
    {
      seq(counter, i requires 0 <= i < counter => slots[(readIndex + i) % |slots|])
    }

    /** The state after `trfsMqPutMsg`: a full queue stays as it is. */
    function Put(x: Slot<T>): Ring<T>
      requires 0 < |slots| && writeIndex < |slots|
    {
      if Full() then this
      else Ring(slots[writeIndex := x], counter + 1, readIndex, (writeIndex + 1) % |slots|)
    }

    /** The state after `trfsMqGetMsg`: an empty queue stays as it is. */
    function Get(): Ring<T>
      requires 0 < |slots|
    {
      if counter == 0 then this
      else Ring(slots, counter - 1, (readIndex + 1) % |slots|, writeIndex)
    }
  }

  /** An index below twice the size wraps at most once. */
  lemma Wrap(i: nat, n: nat)
    requires 0 < n && i < 2 * n
    ensures i % n == if i < n then i else i - n
  {
    var q := i / n;
    assert i == q * n + i % n;
    if q >= 2 {
      assert false;
    } else if q == 1 {
      assert q * n == n;
    } else {
      assert q * n == 0;
    }
  }

  /** Putting appends to the queue, or drops the message when the queue is full. */
  lemma PutAppends<T>(r: Ring<T>, x: Slot<T>)
    requires r.Valid()
    ensures r.Put(x).Valid()
    ensures r.Put(x).Queued() == if r.Full() then r.Queued() else r.Queued() + [x]
  {
    var n := |r.slots|;
    if !r.Full() {
      Wrap(r.readIndex + r.counter, n);
      Wrap(r.readIndex + r.counter + 1, n);
      Wrap(r.writeIndex + 1, n);
      var q := r.Put(x).Queued();
      forall i | 0 <= i < r.counter
        ensures q[i] == r.Queued()[i]
      {
        Wrap(r.readIndex + i, n);
      }
      assert q == r.Queued() + [x];
    }
  }

  /** Getting takes the oldest message off the front. */
  lemma GetTakesOldest<T>(r: Ring<T>)
    requires r.Valid()
    ensures r.Get().Valid()
    ensures r.counter > 0 ==> r.slots[r.readIndex] == r.Queued()[0] && r.Get().Queued() == r.Queued()[1..]
  {
    var n := |r.slots|;
    if r.counter > 0 {
      Wrap(r.readIndex, n);
      Wrap(r.readIndex + 1, n);
      Wrap(r.readIndex + r.counter, n);
      var r' := r.Get();
      Wrap(r'.readIndex + r'.counter, n);
      forall i | 0 <= i < r'.counter
        ensures r'.Queued()[i] == r.Queued()[i + 1]
      {
        Wrap(r'.readIndex + i, n);
        Wrap(r.readIndex + (i + 1), n);
      }
      assert r'.Queued() == r.Queued()[1..];
    }
  }

  /** A queue node, updated in place. */
  class Node<T(0)> {
    var msg: array<Slot<T>>
    var maxMsgs: nat
    var counter: nat
    var readIndex: nat
    var writeIndex: nat
    var exitFlag: bool

    ghost predicate Valid()
      reads this, msg
    {
      maxMsgs <= msg.Length && View().Valid()
    }

    ghost function View(): Ring<T>
      requires maxMsgs <= msg.Length
      reads this, msg
    {
      Ring(msg[..maxMsgs], counter, readIndex, writeIndex)
    }

    constructor (maxMsgs: nat, blank: Slot<T>)
      requires 0 < maxMsgs
      ensures Valid() && fresh(msg) && View().Queued() == [] && this.maxMsgs == maxMsgs && !exitFlag
    {
      this.maxMsgs := maxMsgs;
      msg := new Slot<T>[maxMsgs](_ => blank);
      counter, readIndex, writeIndex, exitFlag := 0, 0, 0, false;
    }

    method PutMsg(x: Slot<T>) returns (code: int)
      requires Valid()
      modifies this`counter, this`writeIndex, msg
      ensures Valid() && View() == old(View()).Put(x)
      ensures code == if old(counter) == maxMsgs then -0x00F00002 else 0
    {
      PutAppends(View(), x);
      if counter == maxMsgs {
        return ERR_MQ_FULL;
      }
      var wIndex := writeIndex;
      writeIndex := (writeIndex + 1) % maxMsgs;
      msg[wIndex] := x;
      counter := counter + 1;
      assert msg[..maxMsgs] == old(msg[..maxMsgs])[wIndex := x];
      return 0;
    }

    method GetMsg(blank: Slot<T>) returns (code: int, x: Slot<T>)
      requires Valid()
      modifies this`counter, this`readIndex
      ensures Valid() && View() == old(View()).Get()
      ensures old(counter) == 0 ==> code == -0x00F00003 && x == blank
      ensures old(counter) > 0 ==>
                code == 0 && x == old(View().Queued())[0] && View().Queued() == old(View().Queued())[1..]
    {
      GetTakesOldest(View());
      if counter == 0 {
        return ERR_MQ_EMPTY, blank;
      }
      x := msg[readIndex];
      counter := counter - 1;
      readIndex := (readIndex + 1) % maxMsgs;
      return 0, x;
    }

    /** `trfsMqSend`: the one failure it looks for is -1, so a message dropped for want of room is
        reported as sent. */
    method Send(data: T, msgLen: int, pri: int) returns (ret: int)
      requires Valid()
      modifies this`counter, this`writeIndex, msg
      ensures Valid()
      ensures msgLen <= 0 ==> ret == -1 && View() == old(View())
      ensures msgLen > 0 ==> ret == msgLen
      ensures msgLen > 0 ==> View().Queued() == if old(counter) == maxMsgs then old(View().Queued())
                                                else old(View().Queued()) + [Slot(pri, msgLen, data)]
    {
      if msgLen <= 0 {
        return -1;
      }
      PutAppends(View(), Slot(pri, msgLen, data));
      var code := PutMsg(Slot(pri, msgLen, data));
      if code == -1 {
        return -1;
      }
      return msgLen;
    }

    /** `trfsMqRecv` after its wait. */
    method Recv(blank: Slot<T>) returns (ret: int, x: Slot<T>)
      requires Valid()
      modifies this`counter, this`readIndex
      ensures Valid()
      ensures exitFlag ==> ret == -2 && View() == old(View())
      ensures !exitFlag && old(counter) == 0 ==> ret == -99 && View() == old(View())
      ensures !exitFlag && old(counter) > 0 ==>
                x == old(View().Queued())[0] && ret == x.len && View().Queued() == old(View().Queued())[1..]
    {
      if exitFlag {
        return EXIT_WAITING_QUEUE, blank;
      }
      if counter == 0 {
        return FLUSH_TIMEOUT, blank;
      }
      var code;
      code, x := GetMsg(blank);
      if code == -1 {
        return -1, x;
      }
      return x.len, x;
    }
  }

  // ----- runs -----

  datatype Op<T> = SendOp(x: Slot<T>) | RecvOp

  /** What a run of sends and receives leaves: the queue, and what was accepted, dropped and handed out. */
  datatype History<Q, T> = History(queue: Q, accepted: seq<Slot<T>>, dropped: seq<Slot<T>>, taken: seq<Slot<T>>)

  /** A run on the circular queue. */
  function RunRing<T>(start: Ring<T>, ops: seq<Op<T>>): (h: History<Ring<T>, T>)
    requires 0 < |start.slots| && start.writeIndex < |start.slots| && start.readIndex < |start.slots|
    ensures |h.queue.slots| == |start.slots| && h.queue.writeIndex < |start.slots| && h.queue.readIndex < |start.slots|
  {
    if ops == [] then History(start, [], [], [])
    else
      var h := RunRing(start, ops[..|ops| - 1]);
      match ops[|ops| - 1]
      case SendOp(x) =>
        if h.queue.Full() then h.(queue := h.queue.Put(x), dropped := h.dropped + [x])
        else h.(queue := h.queue.Put(x), accepted := h.accepted + [x])
      case RecvOp =>
        if h.queue.counter == 0 then h
        else h.(queue := h.queue.Get(), taken := h.taken + [h.queue.slots[h.queue.readIndex]])
  }

  /** The same run on a bounded first-in first-out sequence. */
  function RunFifo<T>(capacity: nat, ops: seq<Op<T>>): History<seq<Slot<T>>, T> {
    if ops == [] then History([], [], [], [])
    else
      var h := RunFifo(capacity, ops[..|ops| - 1]);
      match ops[|ops| - 1]
      case SendOp(x) =>
        if |h.queue| == capacity then h.(dropped := h.dropped + [x])
        else h.(queue := h.queue + [x], accepted := h.accepted + [x])
      case RecvOp =>
        if h.queue == [] then h else h.(queue := h.queue[1..], taken := h.taken + [h.queue[0]])
  }

  /** Over every run the circular queue is the bounded first-in first-out queue: it accepts, drops
      and hands out the same messages, and what was accepted is what was handed out and what is queued. */
  lemma {:induction false} RingRefinesFifo<T>(start: Ring<T>, ops: seq<Op<T>>)
    requires start.Valid() && start.counter == 0
    ensures var h, f := RunRing(start, ops), RunFifo(|start.slots|, ops);
            && h.queue.Valid()
            && f == History(h.queue.Queued(), h.accepted, h.dropped, h.taken)
            && h.accepted == h.taken + h.queue.Queued()
    decreases |ops|
  {
    if ops == [] {
      assert start.Queued() == [];
    } else {
      var init := ops[..|ops| - 1];
      RingRefinesFifo(start, init);
      var h := RunRing(start, init);
      match ops[|ops| - 1]
      case SendOp(x) => SendKeeps(h, x);
      case RecvOp => RecvKeeps(h);
    }
  }

  lemma SendKeeps<T>(h: History<Ring<T>, T>, x: Slot<T>)
    requires h.queue.Valid() && h.accepted == h.taken + h.queue.Queued()
    ensures h.queue.Put(x).Valid()
    ensures h.queue.Full() ==> h.queue.Put(x) == h.queue
    ensures !h.queue.Full() ==>
              && h.queue.Put(x).Queued() == h.queue.Queued() + [x]
              && h.accepted + [x] == h.taken + (h.queue.Queued() + [x])
  {
    PutAppends(h.queue, x);
  }

  lemma RecvKeeps<T>(h: History<Ring<T>, T>)
    requires h.queue.Valid() && h.accepted == h.taken + h.queue.Queued()
    ensures h.queue.Get().Valid()
    ensures h.queue.counter > 0 ==>
              var q := h.queue.Queued();
              && h.queue.slots[h.queue.readIndex] == q[0]
              && h.queue.Get().Queued() == q[1..]
              && h.accepted == (h.taken + [q[0]]) + q[1..]
  {
    GetTakesOldest(h.queue);
  }
}
