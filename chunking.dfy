/**
 * The chunked transfer protocol of the tree characteristic, as pure state
 * transitions. A read of the characteristic serves the next chunk of the
 * published blob; a write delivers the next chunk of a new blob. Each chunk
 * is one sequence byte followed by payload; a lone 0x00 ends a transfer and,
 * on the read side, a lone 0xFF reports that the chunk counter ran out.
 *
 * `ChrTreeCallbacks` in module TreeTransfer performs these transitions on
 * its fields; its methods are proved to agree with ReadStep and WriteStep.
 */
module Chunking {
  import opened Bytes

  const CHUNK_COUNT_MAX: byte := 0xFF - 2
  const CHUNK_FIRST_INDEX: byte := 0x01
  const CHUNK_TRANSMISSION_END: byte := 0x00
  const CHUNK_TRANSMISSION_ERROR: byte := 0xFF

  /** Bytes of the MTU not available to a chunk (`getMTU() - 16`). */
  const MTU_OVERHEAD: int := 16

  /** The largest payload one read may carry under the given MTU. */
  function ChunkCap(mtu: uint16): (cap: int)
    requires MTU_OVERHEAD < mtu as int
    ensures 0 < cap < mtu as int
  {
    mtu as int - MTU_OVERHEAD
  }

  // ---------------------------------------------------------------- reader

  /** `(data_offset, chunk_number)` of the reader. */
  datatype ReadState = ReadState(offset: nat, chunk: byte)

  const ReadIdle: ReadState := ReadState(0, CHUNK_FIRST_INDEX)

  /** The chunk numbers a reader can hold between reads: 1 up to one past the maximum. */
  predicate ReadStateOk(s: ReadState)
  {
    CHUNK_FIRST_INDEX <= s.chunk && s.chunk as int <= CHUNK_COUNT_MAX as int + 1
  }

  /** The reader's next state and the value served to the client. */
  datatype ReadOutput = ReadOutput(next: ReadState, value: seq<byte>)

  /** One read of the tree characteristic against the published blob `data`. */
  function ReadStep(s: ReadState, data: seq<byte>, mtu: uint16): (r: ReadOutput)
    requires MTU_OVERHEAD < mtu as int
    ensures |r.value| >= 1
    // a one-byte value is a sentinel, served exactly when the counter ran out or nothing is left
    ensures |r.value| == 1 <==> (s.chunk > CHUNK_COUNT_MAX || s.offset >= |data|)
    ensures |r.value| == 1 ==> r.next == ReadIdle
    ensures r.value == [CHUNK_TRANSMISSION_ERROR] <==> s.chunk > CHUNK_COUNT_MAX
    ensures s.chunk <= CHUNK_COUNT_MAX && |data| <= s.offset ==> r.value == [CHUNK_TRANSMISSION_END]
    // a data value carries the current number and the next bytes of the blob
    ensures |r.value| > 1 ==>
      && r.value[0] == s.chunk
      && s.offset < r.next.offset <= |data|
      && r.value[1..] == data[s.offset .. r.next.offset]
      && r.next.chunk as int == s.chunk as int + 1
      && r.next.offset - s.offset == Min(ChunkCap(mtu), |data| - s.offset)
    ensures ReadStateOk(s) ==> ReadStateOk(r.next)
  {
    if s.chunk > CHUNK_COUNT_MAX then
      ReadOutput(ReadIdle, [CHUNK_TRANSMISSION_ERROR])
    else if s.offset < |data| then
      var size := Min(ChunkCap(mtu), |data| - s.offset);
      ReadOutput(ReadState(s.offset + size, s.chunk + 1), [s.chunk] + data[s.offset .. s.offset + size])
    else
      ReadOutput(ReadIdle, [CHUNK_TRANSMISSION_END])
  }

  /**
   * The values a client receives by reading again and again under one MTU,
   * starting in state s, up to and including the first sentinel.
   */
  function ReadsUntilSentinel(s: ReadState, data: seq<byte>, mtu: uint16): (served: seq<seq<byte>>)
    requires MTU_OVERHEAD < mtu as int
    ensures |served| >= 1
    ensures |served[|served| - 1]| == 1
    ensures forall i :: 0 <= i < |served| - 1 ==> |served[i]| > 1
    decreases |data| - s.offset
  {
    var r := ReadStep(s, data, mtu);
    if |r.value| == 1 then [r.value]
    else [r.value] + ReadsUntilSentinel(r.next, data, mtu)
  }

  /** A served value with its leading sequence (or sentinel) byte removed. */
  function Strip(value: seq<byte>): seq<byte>
  {
    if value == [] then [] else value[1..]
  }

  /** What a client reassembles from the values it read. */
  function Payload(served: seq<seq<byte>>): seq<byte>
  {
    if served == [] then [] else Strip(served[0]) + Payload(served[1..])
  }

  /**
   * The bytes that n chunks of cap bytes carry, n * cap, written as a
   * recursion so that the traversal proof needs no multiplication.
   */
  function Capacity(n: int, cap: nat): (c: nat)
  {
    if n <= 0 then 0 else cap + Capacity(n - 1, cap)
  }

  lemma {:induction false} CapacityIsProduct(n: nat, cap: nat)
    ensures Capacity(n, cap) == n * cap
  {
    if n > 0 {
      CapacityIsProduct(n - 1, cap);
    }
  }

  /** The outcome a traversal from s reaches: 0x00 when the remaining bytes fit the numbers left, else 0xFF. */
  function ExpectedSentinel(s: ReadState, data: seq<byte>, mtu: uint16): seq<byte>
    requires MTU_OVERHEAD < mtu as int
  {
    var slots := CHUNK_COUNT_MAX as int + 1 - s.chunk as int;
    if 1 <= slots && |data| - s.offset <= Capacity(slots - 1, ChunkCap(mtu)) then [CHUNK_TRANSMISSION_END]
    else [CHUNK_TRANSMISSION_ERROR]
  }

  /** How many bytes a traversal from s delivers: the remaining bytes, or what the numbers left can carry. */
  function ExpectedLength(s: ReadState, data: seq<byte>, mtu: uint16): int
    requires MTU_OVERHEAD < mtu as int
  {
    var slots := CHUNK_COUNT_MAX as int + 1 - s.chunk as int;
    Min(|data| - s.offset, Capacity(slots, ChunkCap(mtu)))
  }

  /** One data read moves the expected outcome and length along with the state. */
  lemma {:induction false} ReadStepKeepsExpectation(s: ReadState, data: seq<byte>, mtu: uint16)
    requires MTU_OVERHEAD < mtu as int
    requires ReadStateOk(s) && s.chunk <= CHUNK_COUNT_MAX && s.offset < |data|
    ensures var next := ReadStep(s, data, mtu).next;
            && ExpectedSentinel(next, data, mtu) == ExpectedSentinel(s, data, mtu)
            && (next.offset - s.offset) + ExpectedLength(next, data, mtu) == ExpectedLength(s, data, mtu)
  {
    var slots := CHUNK_COUNT_MAX as int + 1 - s.chunk as int;
    var cap := ChunkCap(mtu);
    assert Capacity(slots, cap) == cap + Capacity(slots - 1, cap);
    if slots >= 2 {
      assert Capacity(slots - 1, cap) == cap + Capacity(slots - 2, cap);
    }
  }

  /**
   * How a read traversal from any reachable state ends: with 0x00 when the
   * remaining bytes fit in the chunk numbers left before the maximum, and
   * with 0xFF otherwise.
   */
  lemma {:induction false} TraversalSentinel(s: ReadState, data: seq<byte>, mtu: uint16)
    requires MTU_OVERHEAD < mtu as int
    requires ReadStateOk(s)
    requires s.offset <= |data|
    ensures var served := ReadsUntilSentinel(s, data, mtu);
            served[|served| - 1] == ExpectedSentinel(s, data, mtu)
    decreases |data| - s.offset
  {
    var served := ReadsUntilSentinel(s, data, mtu);
    var r := ReadStep(s, data, mtu);
    if s.chunk > CHUNK_COUNT_MAX {
      assert served == [[CHUNK_TRANSMISSION_ERROR]];
    } else if s.offset < |data| {
      var rest := ReadsUntilSentinel(r.next, data, mtu);
      assert served == [r.value] + rest;
      TraversalSentinel(r.next, data, mtu);
      ReadStepKeepsExpectation(s, data, mtu);
    } else {
      assert served == [[CHUNK_TRANSMISSION_END]];
    }
  }

  /** A data read contributes its slice of the blob, then the rest of the traversal follows. */
  lemma {:induction false} PayloadUnfold(s: ReadState, data: seq<byte>, mtu: uint16)
    requires MTU_OVERHEAD < mtu as int
    requires s.chunk <= CHUNK_COUNT_MAX && s.offset < |data|
    ensures var next := ReadStep(s, data, mtu).next;
            && s.offset < next.offset <= |data|
            && Payload(ReadsUntilSentinel(s, data, mtu))
               == data[s.offset .. next.offset] + Payload(ReadsUntilSentinel(next, data, mtu))
  {
    var r := ReadStep(s, data, mtu);
    var rest := ReadsUntilSentinel(r.next, data, mtu);
    var served := ReadsUntilSentinel(s, data, mtu);
    assert served == [r.value] + rest;
    assert served[1..] == rest;
    assert Strip(served[0]) == data[s.offset .. r.next.offset];
  }

  /** A traversal that starts at a sentinel delivers nothing, and nothing is expected of it. */
  lemma {:induction false} PayloadAtSentinel(s: ReadState, data: seq<byte>, mtu: uint16)
    requires MTU_OVERHEAD < mtu as int
    requires ReadStateOk(s) && s.offset <= |data|
    requires s.chunk > CHUNK_COUNT_MAX || s.offset == |data|
    ensures ExpectedLength(s, data, mtu) == 0
    ensures data[.. s.offset] + Payload(ReadsUntilSentinel(s, data, mtu)) == data[.. s.offset]
  {
    var r := ReadStep(s, data, mtu);
    assert ReadsUntilSentinel(s, data, mtu) == [r.value];
    assert Payload([r.value]) == Strip(r.value) + Payload([]);
  }

  /**
   * One data read, seen from the start of the blob: the bytes before s and
   * what a traversal from s delivers are the bytes before the next state and
   * what a traversal from there delivers. The next state is returned so that
   * callers need not unfold ReadStep.
   */
  lemma {:induction false} PrefixStep(s: ReadState, data: seq<byte>, mtu: uint16) returns (next: ReadState)
    requires MTU_OVERHEAD < mtu as int
    requires ReadStateOk(s) && s.chunk <= CHUNK_COUNT_MAX && s.offset < |data|
    ensures ReadStateOk(next) && s.offset < next.offset <= |data|
    ensures ExpectedLength(s, data, mtu) == (next.offset - s.offset) + ExpectedLength(next, data, mtu)
    ensures data[.. s.offset] + Payload(ReadsUntilSentinel(s, data, mtu))
         == data[.. next.offset] + Payload(ReadsUntilSentinel(next, data, mtu))
  {
    next := ReadStep(s, data, mtu).next;
    ReadStepKeepsExpectation(s, data, mtu);
    PayloadUnfold(s, data, mtu);
    PrefixJoin(data, s.offset, next.offset, Payload(ReadsUntilSentinel(next, data, mtu)));
  }

  /** The bytes before a, then the slice from a to b, then any tail, are the bytes before b and that tail. */
  lemma {:induction false} PrefixJoin(data: seq<byte>, a: nat, b: nat, tail: seq<byte>)
    requires a <= b <= |data|
    ensures data[.. a] + (data[a .. b] + tail) == data[.. b] + tail
  {
    assert data[.. a] + data[a .. b] == data[.. b];
  }

  /** The prefix of a blob up to its length is the blob. */
  lemma {:induction false} WholePrefix(data: seq<byte>)
    ensures data[.. |data|] == data
    ensures data[0 .. |data|] == data
  {
  }

  /** If the bytes before a followed by p are the bytes before c, then p is the slice from a to c. */
  lemma {:induction false} PrefixCancel(data: seq<byte>, a: nat, c: int, p: seq<byte>)
    requires a <= c <= |data|
    requires data[.. a] + p == data[.. c]
    ensures p == data[a .. c]
  {
    forall i | 0 <= i < |p|
      ensures p[i] == data[a + i]
    {
      assert (data[.. a] + p)[a + i] == p[i];
    }
  }

  /** Prefix form of TraversalPayload, the shape in which the induction goes through. */
  lemma {:induction false} TraversalPrefix(s: ReadState, data: seq<byte>, mtu: uint16)
    requires MTU_OVERHEAD < mtu as int
    requires ReadStateOk(s)
    requires s.offset <= |data|
    ensures 0 <= ExpectedLength(s, data, mtu) <= |data| - s.offset
    ensures data[.. s.offset] + Payload(ReadsUntilSentinel(s, data, mtu))
         == data[.. s.offset + ExpectedLength(s, data, mtu)]
    decreases |data| - s.offset
  {
    if s.chunk > CHUNK_COUNT_MAX || s.offset == |data| {
      PayloadAtSentinel(s, data, mtu);
    } else {
      var next := PrefixStep(s, data, mtu);
      TraversalPrefix(next, data, mtu);
    }
  }

  /**
   * What a read traversal from any reachable state delivers: exactly the
   * next ExpectedLength bytes of the blob, in order.
   */
  lemma {:induction false} TraversalPayload(s: ReadState, data: seq<byte>, mtu: uint16)
    requires MTU_OVERHEAD < mtu as int
    requires ReadStateOk(s)
    requires s.offset <= |data|
    ensures 0 <= ExpectedLength(s, data, mtu) <= |data| - s.offset
    ensures Payload(ReadsUntilSentinel(s, data, mtu)) == data[s.offset .. s.offset + ExpectedLength(s, data, mtu)]
  {
    TraversalPrefix(s, data, mtu);
    PrefixCancel(data, s.offset, s.offset + ExpectedLength(s, data, mtu), Payload(ReadsUntilSentinel(s, data, mtu)));
  }

  /** The data values of a traversal from s carry the numbers s.chunk, s.chunk + 1, ... in order. */
  lemma {:induction false} TraversalNumbering(s: ReadState, data: seq<byte>, mtu: uint16)
    requires MTU_OVERHEAD < mtu as int
    ensures forall i :: 0 <= i < |ReadsUntilSentinel(s, data, mtu)| - 1 ==>
              ReadsUntilSentinel(s, data, mtu)[i][0] as int == s.chunk as int + i
    decreases |data| - s.offset
  {
    var served := ReadsUntilSentinel(s, data, mtu);
    var r := ReadStep(s, data, mtu);
    if |r.value| > 1 {
      var rest := ReadsUntilSentinel(r.next, data, mtu);
      assert served == [r.value] + rest;
      TraversalNumbering(r.next, data, mtu);
      forall i | 1 <= i < |served| - 1
        ensures served[i][0] as int == s.chunk as int + i
      {
        assert served[i] == rest[i - 1];
        assert rest[i - 1][0] as int == r.next.chunk as int + (i - 1);
      }
    }
  }

  /** What is expected of a traversal from the idle state, in terms of the blob's length. */
  lemma {:induction false} IdleExpectation(data: seq<byte>, mtu: uint16)
    requires MTU_OVERHEAD < mtu as int
    ensures |data| <= (CHUNK_COUNT_MAX as int - 1) * ChunkCap(mtu) ==>
              && ExpectedSentinel(ReadIdle, data, mtu) == [CHUNK_TRANSMISSION_END]
              && ExpectedLength(ReadIdle, data, mtu) == |data|
    ensures (CHUNK_COUNT_MAX as int - 1) * ChunkCap(mtu) < |data| ==>
              && ExpectedSentinel(ReadIdle, data, mtu) == [CHUNK_TRANSMISSION_ERROR]
              && ExpectedLength(ReadIdle, data, mtu) == Min(|data|, CHUNK_COUNT_MAX as int * ChunkCap(mtu))
  {
    CapacityIsProduct(252, ChunkCap(mtu));
    CapacityIsProduct(253, ChunkCap(mtu));
  }

  /**
   * Round trip: from the idle state, a blob that needs at most
   * CHUNK_COUNT_MAX - 1 (252) chunks is served as chunks 1, 2, ... whose
   * payloads concatenate to the blob, followed by the end sentinel.
   */
  lemma {:induction false} ReadRoundTrip(data: seq<byte>, mtu: uint16)
    requires MTU_OVERHEAD < mtu as int
    requires |data| <= (CHUNK_COUNT_MAX as int - 1) * ChunkCap(mtu)
    ensures var served := ReadsUntilSentinel(ReadIdle, data, mtu);
            && served[|served| - 1] == [CHUNK_TRANSMISSION_END]
            && Payload(served) == data
            && (forall i :: 0 <= i < |served| - 1 ==> served[i][0] as int == i + 1)
  {
    var served := ReadsUntilSentinel(ReadIdle, data, mtu);
    assert served[|served| - 1] == [CHUNK_TRANSMISSION_END] by {
      IdleExpectation(data, mtu);
      TraversalSentinel(ReadIdle, data, mtu);
    }
    assert Payload(served) == data by {
      IdleExpectation(data, mtu);
      TraversalPayload(ReadIdle, data, mtu);
      WholePrefix(data);
    }
    TraversalNumbering(ReadIdle, data, mtu);
  }

  /**
   * A blob that needs more than CHUNK_COUNT_MAX - 1 chunks ends in the error
   * sentinel, after at most CHUNK_COUNT_MAX chunks of payload.
   */
  lemma {:induction false} ReadOverflow(data: seq<byte>, mtu: uint16)
    requires MTU_OVERHEAD < mtu as int
    requires (CHUNK_COUNT_MAX as int - 1) * ChunkCap(mtu) < |data|
    ensures var served := ReadsUntilSentinel(ReadIdle, data, mtu);
            && served[|served| - 1] == [CHUNK_TRANSMISSION_ERROR]
            && Payload(served) == data[.. Min(|data|, CHUNK_COUNT_MAX as int * ChunkCap(mtu))]
  {
    var served := ReadsUntilSentinel(ReadIdle, data, mtu);
    assert served[|served| - 1] == [CHUNK_TRANSMISSION_ERROR] by {
      IdleExpectation(data, mtu);
      TraversalSentinel(ReadIdle, data, mtu);
    }
    assert Payload(served) == data[.. Min(|data|, CHUNK_COUNT_MAX as int * ChunkCap(mtu))] by {
      IdleExpectation(data, mtu);
      TraversalPayload(ReadIdle, data, mtu);
    }
  }

  /**
   * Because the counter check comes before the remaining-bytes check, a blob
   * that needs exactly CHUNK_COUNT_MAX (253) chunks is served completely and
   * then answered with 0xFF instead of 0x00.
   */
  lemma {:induction false} ExactlyMaxChunksEndsInError(data: seq<byte>, mtu: uint16)
    requires MTU_OVERHEAD < mtu as int
    requires (CHUNK_COUNT_MAX as int - 1) * ChunkCap(mtu) < |data| <= CHUNK_COUNT_MAX as int * ChunkCap(mtu)
    ensures var served := ReadsUntilSentinel(ReadIdle, data, mtu);
            && served[|served| - 1] == [CHUNK_TRANSMISSION_ERROR]
            && Payload(served) == data
  {
    ReadOverflow(data, mtu);
    WholePrefix(data);
  }

  /** With MTU 36 (payload cap 20) a 50-byte blob is served in three chunks and the end sentinel. */
  lemma {:induction false} ReadFiftyBytesAtMtu36(data: seq<byte>)
    requires |data| == 50
    ensures ReadsUntilSentinel(ReadIdle, data, 36)
         == [[1] + data[0..20], [2] + data[20..40], [3] + data[40..50], [CHUNK_TRANSMISSION_END]]
  {
    var r1 := ReadStep(ReadIdle, data, 36);
    var r2 := ReadStep(r1.next, data, 36);
    var r3 := ReadStep(r2.next, data, 36);
    var r4 := ReadStep(r3.next, data, 36);
    assert r1.next == ReadState(20, 2);
    assert r2.next == ReadState(40, 3);
    assert r3.next == ReadState(50, 4);
    assert ReadsUntilSentinel(r3.next, data, 36) == [r4.value];
    assert ReadsUntilSentinel(r2.next, data, 36) == [r3.value, r4.value];
    assert ReadsUntilSentinel(r1.next, data, 36) == [r2.value, r3.value, r4.value];
  }

  // ---------------------------------------------------------------- writer

  /** `(write_chunk, write_data)` of the writer. */
  datatype WriteState = WriteState(chunk: byte, data: seq<byte>)

  const WriteIdle: WriteState := WriteState(CHUNK_FIRST_INDEX, [])

  /** The writer's next state and the blob handed to the store, if any. */
  datatype WriteOutput = WriteOutput(next: WriteState, submitted: Option<seq<byte>>)

  /** A packet that continues the transfer in progress: longer than one byte and carrying the expected number. */
  predicate InSequence(s: WriteState, packet: seq<byte>)
  {
    |packet| > 1 && packet[0] == s.chunk
  }

  /** One write of the tree characteristic. */
  function WriteStep(s: WriteState, packet: seq<byte>): (r: WriteOutput)
    // the accumulated blob is handed over exactly on a lone end sentinel
    ensures r.submitted.Some? <==> packet == [CHUNK_TRANSMISSION_END]
    ensures r.submitted.Some? ==> r.submitted.value == s.data
    // an in-sequence packet appends its payload and advances the (wrapping) counter
    ensures InSequence(s, packet) ==> r.next == WriteState(Inc(s.chunk), s.data + packet[1..])
    // anything else, including the end sentinel, leaves the writer idle
    ensures !InSequence(s, packet) ==> r.next == WriteIdle
  {
    if |packet| == 1 && packet[0] == CHUNK_TRANSMISSION_END then
      WriteOutput(WriteIdle, Some(s.data))
    else if |packet| <= 1 then
      WriteOutput(WriteIdle, None)
    else if packet[0] == s.chunk then
      WriteOutput(WriteState(Inc(s.chunk), s.data + packet[1..]), None)
    else
      WriteOutput(WriteIdle, None)
  }

  /** The writer's final state and every blob handed to the store, in order. */
  datatype WriteRunOutput = WriteRunOutput(final: WriteState, submissions: seq<seq<byte>>)

  function Submissions(o: Option<seq<byte>>): seq<seq<byte>>
  {
    if o.Some? then [o.value] else []
  }

  /** A sequence of writes, one after another, from state s. */
  function WriteRun(s: WriteState, packets: seq<seq<byte>>): WriteRunOutput
    decreases |packets|
  {
    if packets == [] then WriteRunOutput(s, [])
    else
      var r := WriteStep(s, packets[0]);
      var rest := WriteRun(r.next, packets[1..]);
      WriteRunOutput(rest.final, Submissions(r.submitted) + rest.submissions)
  }

  /** The packets a client sends for the given payloads, numbered from `first` with the counter's wrap-around. */
  function Framed(payloads: seq<seq<byte>>, first: byte): (packets: seq<seq<byte>>)
    ensures |packets| == |payloads|
    decreases |payloads|
  {
    if payloads == [] then [] else [[first] + payloads[0]] + Framed(payloads[1..], Inc(first))
  }

  /** The i-th framed packet carries number (first + i) mod 256 and then the i-th payload. */
  lemma {:induction false} FramedAt(payloads: seq<seq<byte>>, first: byte, i: nat)
    requires i < |payloads|
    ensures Framed(payloads, first)[i] == [((first as int + i) % 0x100) as byte] + payloads[i]
    decreases i
  {
    if i > 0 {
      FramedAt(payloads[1..], Inc(first), i - 1);
      assert (((first as int + 1) % 0x100) + (i - 1)) % 0x100 == (first as int + i) % 0x100;
    }
  }

  predicate NonEmptyPayloads(payloads: seq<seq<byte>>)
  {
    forall i :: 0 <= i < |payloads| ==> payloads[i] != []
  }

  /**
   * The first framed packet of an in-order transfer appends its payload and
   * advances the counter; the returned state is where the rest of the
   * transfer continues.
   */
  lemma {:induction false} WriteFirstPacket(s: WriteState, payloads: seq<seq<byte>>) returns (next: WriteState)
    requires NonEmptyPayloads(payloads) && payloads != []
    ensures NonEmptyPayloads(payloads[1..])
    ensures next.data + Concat(payloads[1..]) == s.data + Concat(payloads)
    ensures WriteRun(s, Framed(payloads, s.chunk) + [[CHUNK_TRANSMISSION_END]])
         == WriteRun(next, Framed(payloads[1..], next.chunk) + [[CHUNK_TRANSMISSION_END]])
  {
    var packets := Framed(payloads, s.chunk) + [[CHUNK_TRANSMISSION_END]];
    var p := [s.chunk] + payloads[0];
    assert packets[0] == p;
    assert packets[1..] == Framed(payloads[1..], Inc(s.chunk)) + [[CHUNK_TRANSMISSION_END]];
    assert p[1..] == payloads[0];
    next := WriteState(Inc(s.chunk), s.data + payloads[0]);
    assert WriteStep(s, p) == WriteOutput(next, None);
    forall i | 0 <= i < |payloads[1..]|
      ensures payloads[1..][i] != []
    {
      assert payloads[1..][i] == payloads[i + 1];
    }
  }

  /**
   * An in-order transfer from any writer state: framed packets numbered from
   * the expected number, then the end sentinel, hand the store exactly one
   * blob, the earlier accumulation followed by every payload, and leave the
   * writer idle.
   */
  lemma {:induction false} WriteTransfer(s: WriteState, payloads: seq<seq<byte>>)
    requires NonEmptyPayloads(payloads)
    ensures WriteRun(s, Framed(payloads, s.chunk) + [[CHUNK_TRANSMISSION_END]])
         == WriteRunOutput(WriteIdle, [s.data + Concat(payloads)])
    decreases |payloads|
  {
    if payloads == [] {
      assert Framed(payloads, s.chunk) + [[CHUNK_TRANSMISSION_END]] == [[CHUNK_TRANSMISSION_END]];
      assert s.data + Concat(payloads) == s.data;
    } else {
      var next := WriteFirstPacket(s, payloads);
      WriteTransfer(next, payloads[1..]);
    }
  }

  /** From idle, packets [1]+p1, [2]+p2, ..., then [0x00] submit p1 + p2 + ... once. */
  lemma {:induction false} WriteRoundTrip(payloads: seq<seq<byte>>)
    requires NonEmptyPayloads(payloads)
    ensures WriteRun(WriteIdle, Framed(payloads, CHUNK_FIRST_INDEX) + [[CHUNK_TRANSMISSION_END]])
         == WriteRunOutput(WriteIdle, [Concat(payloads)])
  {
    WriteTransfer(WriteIdle, payloads);
    assert WriteIdle.data + Concat(payloads) == Concat(payloads);
  }

  /** A packet that is neither in sequence nor the end sentinel. */
  predicate Violation(s: WriteState, packet: seq<byte>)
  {
    !InSequence(s, packet) && packet != [CHUNK_TRANSMISSION_END]
  }

  /**
   * A violation discards everything accumulated and submits nothing: the
   * writes after it behave exactly as they would from the idle state.
   */
  lemma {:induction false} ViolationResets(s: WriteState, bad: seq<byte>, later: seq<seq<byte>>)
    requires Violation(s, bad)
    ensures WriteRun(s, [bad] + later) == WriteRun(WriteIdle, later)
  {
    assert ([bad] + later)[1..] == later;
  }

  /** After a violation, a fresh in-order transfer from 1 still succeeds, and only its payloads are submitted. */
  lemma {:induction false} RecoveryAfterViolation(s: WriteState, bad: seq<byte>, payloads: seq<seq<byte>>)
    requires Violation(s, bad)
    requires NonEmptyPayloads(payloads)
    ensures WriteRun(s, [bad] + Framed(payloads, CHUNK_FIRST_INDEX) + [[CHUNK_TRANSMISSION_END]])
         == WriteRunOutput(WriteIdle, [Concat(payloads)])
  {
    var later := Framed(payloads, CHUNK_FIRST_INDEX) + [[CHUNK_TRANSMISSION_END]];
    assert [bad] + Framed(payloads, CHUNK_FIRST_INDEX) + [[CHUNK_TRANSMISSION_END]] == [bad] + later;
    ViolationResets(s, bad, later);
    WriteRoundTrip(payloads);
  }

  /** Writes [1,a,b,c], [2,d,e], [0] submit [a,b,c,d,e] exactly once. */
  lemma {:induction false} WriteFiveBytesInTwoChunks(a: byte, b: byte, c: byte, d: byte, e: byte)
    ensures WriteRun(WriteIdle, [[1, a, b, c], [2, d, e], [CHUNK_TRANSMISSION_END]])
         == WriteRunOutput(WriteIdle, [[a, b, c, d, e]])
  {
    var payloads := [[a, b, c], [d, e]];
    assert payloads[1..][1..] == [];
    assert Framed(payloads[1..], 2) == [[2] + [d, e]] + Framed([], 3);
    assert Framed(payloads, 1) == [[1] + [a, b, c]] + Framed(payloads[1..], 2);
    assert [1] + [a, b, c] == [1, a, b, c] && [2] + [d, e] == [2, d, e];
    assert Framed(payloads, 1) == [[1, a, b, c], [2, d, e]];
    assert Concat(payloads[1..]) == [d, e] + Concat([]);
    assert Concat(payloads) == [a, b, c, d, e];
    WriteRoundTrip(payloads);
  }
}
