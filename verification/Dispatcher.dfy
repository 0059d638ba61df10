/** The dispatcher and its packet manager as they update their queues in place: each method is
    proved against the ownership step of the same name. */
module Dispatcher {
  import opened Words
  import opened Clock32
  import opened PacketQueue
  import opened WireSpec
  import opened Ownership
  import opened MeshLayer
  import opened PacketPool

  method PreparedFreeList(size: nat) returns (q: Queue)
    ensures q.Valid() && q.size == size && q.Contents() == Fresh(size) && fresh(q.Repr())
  {
    q := new Queue(size);
    for i := 0 to size
      invariant q.Valid() && q.size == size && fresh(q.Repr())
      invariant q.Contents() == Fresh(i) && |Fresh(i)| == i
    {
      var _ := q.Add(i, 0, 0);
    }
  }

  class Dispatcher {
    const unused: Queue
    const sendQueue: Queue
    const rxQueue: Queue
    const poolSize: nat
    var outbound: Option<nat>

    ghost predicate Apart()
    {
      && this !in unused.Repr() && this !in sendQueue.Repr() && this !in rxQueue.Repr()
      && unused.Repr() !! sendQueue.Repr() && unused.Repr() !! rxQueue.Repr() && sendQueue.Repr() !! rxQueue.Repr()
    }

    ghost predicate Valid()
      reads unused, sendQueue, rxQueue
    {
      && Apart()
      && unused.Valid() && sendQueue.Valid() && rxQueue.Valid()
      && unused.size == poolSize && sendQueue.size == poolSize && rxQueue.size == poolSize
    }

    ghost function Repr(): set<object>
    {
      {this} + unused.Repr() + sendQueue.Repr() + rxQueue.Repr()
    }

    ghost function State(): Pool
      requires Valid()
      reads this, unused, sendQueue, rxQueue, Repr()
    {
      Pool(unused.Contents(), sendQueue.Contents(), rxQueue.Contents(), outbound)
    }

    /** meshcore_packet_queue_manager_prepare */
    constructor (size: nat)
      ensures Valid() && poolSize == size
      ensures State() == Pool(Fresh(size), [], [], None)
    {
      poolSize := size;
      var free := PreparedFreeList(size);
      unused := free;
      sendQueue := new Queue(size);
      rxQueue := new Queue(size);
      outbound := None;
    }

    method AllocNew() returns (packet: Option<nat>)
      requires Valid()
      modifies Repr()
      ensures Valid() && (State(), packet) == Alloc(old(State()))
    {
      packet := unused.RemoveByIdx(0);
      assert old(State()).unused != [] ==> Without(old(State()).unused, 0) == old(State()).unused[1..];
    }

    method FreePacket(packet: nat)
      requires Valid()
      modifies Repr()
      ensures Valid() && State() == Free(old(State()), packet, poolSize)
    {
      var _ := unused.Add(packet, 0, 0);
    }

    method QueueOutbound(packet: nat, priority: u8, scheduledFor: u32)
      requires Valid()
      modifies Repr()
      ensures Valid() && State() == QueueOut(old(State()), packet, priority, scheduledFor, poolSize)
    {
      var ok := sendQueue.Add(packet, priority, scheduledFor);
      if !ok { FreePacket(packet); }
    }

    method QueueInbound(packet: nat, scheduledFor: u32)
      requires Valid()
      modifies Repr()
      ensures Valid() && State() == QueueIn(old(State()), packet, scheduledFor, poolSize)
    {
      var ok := rxQueue.Add(packet, 0, scheduledFor);
      if !ok { FreePacket(packet); }
    }

    /** meshcore_dispatcher_send_packet */
    method SendPacket(packet: nat, payloadLen: nat, field: nat, priority: u8, delay: u32, now: u32)
      requires Valid()
      modifies Repr()
      ensures Valid() && State() == Dispatch(old(State()), packet, payloadLen, field, priority, delay, now, poolSize)
    {
      if !ValidPathLen(field % 0x100) || payloadLen > MAX_PAYLOAD {
        FreePacket(packet);
        return;
      }
      QueueOutbound(packet, priority, Later(now, delay));
    }

    method GetNextOutbound(now: u32) returns (packet: Option<nat>)
      requires Valid()
      modifies Repr()
      ensures Valid() && outbound == old(outbound) && (State(), packet) == NextOutbound(old(State()), now)
    {
      packet := sendQueue.Get(now);
    }

    method GetNextInbound(now: u32) returns (packet: Option<nat>)
      requires Valid()
      modifies Repr()
      ensures Valid() && (State(), packet) == NextInbound(old(State()), now)
    {
      packet := rxQueue.Get(now);
    }

    method TxDone() returns (handled: bool)
      requires Valid()
      modifies Repr()
      ensures Valid() && State() == FinishTx(old(State()), poolSize)
      ensures handled == old(outbound).Some?
    {
      if outbound.None? {
        return false;
      }
      FreePacket(outbound.value);
      outbound := None;
      handled := true;
    }

    method CheckSendQueue(l: LoopInput, now: u32)
      requires Valid() && outbound.None?
      modifies Repr()
      ensures Valid() && State() == CheckSend(old(State()), l, now, poolSize)
    {
      var due := HasDueOutbound(now);
      if !due || !l.mayTransmit {
        return;
      }
      TransmitNext(l, now);
    }

    method HasDueOutbound(now: u32) returns (due: bool)
      requires Valid()
      ensures due == HasDue(State().send, now)
    {
      var count := sendQueue.CountBefore(now);
      DueCountZero(sendQueue.Contents(), now);
      due := count != 0;
    }

    method TransmitNext(l: LoopInput, now: u32)
      requires Valid() && outbound.None?
      modifies Repr()
      ensures Valid() && State() == Transmit(old(State()), l, now, poolSize)
    {
      var packet := GetNextOutbound(now);
      outbound := packet;
      if outbound.None? {
        return;
      }
      StartSend(l);
    }

    /** The end of meshcore_dispatcher_check_send: the frame is encoded and given to the radio. */
    method StartSend(l: LoopInput)
      requires Valid() && outbound.Some?
      modifies Repr()
      ensures Valid() && State() == if l.writes && l.starts then old(State()) else FinishTx(old(State()), poolSize)
    {
      if !l.writes {
        FreePacket(outbound.value);
        outbound := None;
        return;
      }
      if !l.starts {
        FreePacket(outbound.value);
        outbound := None;
      }
    }
  }
}
