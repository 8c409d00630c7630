/** The zero-copy packet buffer (packetPool.go): a bounded double-ended byte buffer. */
module PacketPool {
  import opened Bytes

  const MAX_PACKET_SIZE := 2048
  const DEFAULT_HEADROOM := 128

  /** packetPool.go: PacketBuffer. */
  class PacketBuffer {
    const buf: array<byte>
    var head: int
    var tail: int
    var L3Offset: int
    var L4Offset: int

    ghost predicate Valid()
      reads this
    {
      buf.Length == MAX_PACKET_SIZE && 0 <= head <= DEFAULT_HEADROOM <= tail <= MAX_PACKET_SIZE
    }

    /** A buffer as the pool hands it out: reset, with the bytes of an earlier packet in it. */
    constructor AllocPacket(pooled: array<byte>)
      requires pooled.Length == MAX_PACKET_SIZE
      ensures Valid() && buf == pooled && Contents() == Deque([], [])
    {
      buf := pooled;
      head, tail := DEFAULT_HEADROOM, DEFAULT_HEADROOM;
      L3Offset, L4Offset := 0, 0;
    }

    /** packetPool.go: Reset. */
    method Reset()
      requires Valid()
      modifies this
      ensures Valid() && Contents() == Deque([], []) && L3Offset == L4Offset == 0
      ensures Data() == []
    {
      head := DEFAULT_HEADROOM;
      tail := DEFAULT_HEADROOM;
      L3Offset := 0;
      L4Offset := 0;
    }

    /** What was prepended and what was appended since the last reset. */
    ghost function Contents(): Deque
      requires Valid()
      reads this, buf
    {
      Deque(buf[head..DEFAULT_HEADROOM], buf[DEFAULT_HEADROOM..tail])
    }

    /** packetPool.go: Data. */
    function Data(): (data: seq<byte>)
      requires Valid()
      reads this, buf
      ensures data == Contents().front + Contents().back
    {
      buf[head..tail]
    }

    /** packetPool.go: Len. */
    function Len(): (n: int)
      requires Valid()
      reads this, buf
      ensures n == |Data()|
    {
      tail - head
    }

    /** packetPool.go: Prepend. On success the caller gets the n bytes from position at. */
    method Prepend(n: nat) returns (at: Option<nat>)
      requires Valid()
      modifies this`head
      ensures Valid()
      ensures at.Some? <==> |old(Contents()).front| + n <= DEFAULT_HEADROOM
      ensures at.Some? ==> at.value == head == old(head) - n
      ensures at.None? ==> head == old(head)
    {
      if head < n {
        return None;
      }
      head := head - n;
      return Some(head);
    }

    /** packetPool.go: Append. */
    method Append(n: nat) returns (at: Option<nat>)
      requires Valid()
      modifies this`tail
      ensures Valid()
      ensures at.Some? <==> |old(Contents()).back| + n <= MAX_PACKET_SIZE - DEFAULT_HEADROOM
      ensures at.Some? ==> at.value == old(tail) && tail == old(tail) + n
      ensures at.None? ==> tail == old(tail)
    {
      if tail + n > MAX_PACKET_SIZE {
        return None;
      }
      var oldTail := tail;
      tail := tail + n;
      return Some(oldTail);
    }

    /** The caller filling a returned slice. */
    method Fill(at: nat, chunk: seq<byte>)
      requires at + |chunk| <= buf.Length
      modifies buf
      ensures buf[..] == old(buf[..at]) + chunk + old(buf[at + |chunk|..])
    {
      forall k | 0 <= k < |chunk| {
        buf[at + k] := chunk[k];
      }
    }

    /** One Prepend or Append call with the returned slice filled in. */
    method Perform(op: Op)
      requires Valid()
      modifies this, buf
      ensures Valid() && Contents() == Apply(old(Contents()), op)
    {
      ghost var before := buf[..];
      match op
      case Front(chunk) =>
        var at := Prepend(|chunk|);
        if at.Some? {
          Fill(at.value, chunk);
          assert buf[head..DEFAULT_HEADROOM] == chunk + before[old(head)..DEFAULT_HEADROOM];
          assert buf[DEFAULT_HEADROOM..tail] == before[DEFAULT_HEADROOM..tail];
        }
      case Back(chunk) =>
        var at := Append(|chunk|);
        if at.Some? {
          Fill(at.value, chunk);
          assert buf[head..DEFAULT_HEADROOM] == before[head..DEFAULT_HEADROOM];
          assert buf[DEFAULT_HEADROOM..tail] == before[DEFAULT_HEADROOM..old(tail)] + chunk;
        }
    }
  }

  // ---------- Runs ----------

  datatype Op = Front(chunk: seq<byte>) | Back(chunk: seq<byte>)
  datatype Deque = Deque(front: seq<byte>, back: seq<byte>)

  /** The effect of one call; a call that does not fit changes nothing. */
  function Apply(d: Deque, op: Op): Deque {
    match op
    case Front(c) => if |d.front| + |c| <= DEFAULT_HEADROOM then d.(front := c + d.front) else d
    case Back(c) =>
      if |d.back| + |c| <= MAX_PACKET_SIZE - DEFAULT_HEADROOM then d.(back := d.back + c) else d
  }

  function Run(d: Deque, ops: seq<Op>): Deque
    decreases |ops|
  {
    if ops == [] then d else Run(Apply(d, ops[0]), ops[1..])
  }

  /** The front chunks of a run, newest first. */
  function Fronts(ops: seq<Op>): seq<byte> {
    if ops == [] then []
    else if ops[0].Front? then Fronts(ops[1..]) + ops[0].chunk
    else Fronts(ops[1..])
  }

  /** The back chunks of a run, oldest first. */
  function Backs(ops: seq<Op>): seq<byte> {
    if ops == [] then []
    else if ops[0].Back? then ops[0].chunk + Backs(ops[1..])
    else Backs(ops[1..])
  }

  /** The content of a run is all its prepended chunks newest first, then all its appended
      chunks oldest first, exactly when they fit in 128 and 1920 bytes. */
  lemma {:induction false} RunContents(d: Deque, ops: seq<Op>)
    requires |d.front| <= DEFAULT_HEADROOM && |d.back| <= MAX_PACKET_SIZE - DEFAULT_HEADROOM
    ensures var r := Run(d, ops);
      && |r.front| <= 128 && |r.back| <= 1920
      && (r.front == Fronts(ops) + d.front <==> |Fronts(ops)| + |d.front| <= 128)
      && (r.back == d.back + Backs(ops) <==> |Backs(ops)| + |d.back| <= 1920)
    decreases |ops|
  {
    if ops == [] {
      assert [] + d.front == d.front && d.back + [] == d.back;
    } else {
      RunContents(Apply(d, ops[0]), ops[1..]);
      var c, rest := ops[0].chunk, ops[1..];
      if ops[0].Front? {
        assert Fronts(rest) + c + d.front == Fronts(rest) + (c + d.front);
      } else {
        assert d.back + (c + Backs(rest)) == d.back + c + Backs(rest);
      }
    }
  }

  /** The two ends never disturb each other: dropping every call at one end leaves the
      other end as it was. */
  lemma {:induction false} EndsIndependent(d: Deque, ops: seq<Op>)
    ensures Run(d, ops).front == Run(d, Only(ops, true)).front
    ensures Run(d, ops).back == Run(d, Only(ops, false)).back
    decreases |ops|
  {
    if ops != [] {
      var e, rest := Apply(d, ops[0]), ops[1..];
      EndsIndependent(e, rest);
      OtherEnd(e, d, Only(rest, false));
      OtherEnd(e, d, Only(rest, true));
    }
  }

  function Only(ops: seq<Op>, front: bool): seq<Op> {
    if ops == [] then []
    else if ops[0].Front? == front then [ops[0]] + Only(ops[1..], front)
    else Only(ops[1..], front)
  }

  lemma {:induction false} OtherEnd(d: Deque, e: Deque, ops: seq<Op>)
    ensures d.front == e.front ==> Run(d, ops).front == Run(e, ops).front
    ensures d.back == e.back ==> Run(d, ops).back == Run(e, ops).back
    decreases |ops|
  {
    if ops != [] {
      OtherEnd(Apply(d, ops[0]), Apply(e, ops[0]), ops[1..]);
    }
  }
}
