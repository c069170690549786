/** The sending side of the chunked-frame transport (udp_server.rs): splitting
    an encoded payload into fixed-size chunks, framing each chunk with the
    12-byte big-endian header, the abort-on-first-failure send loop, and the
    frame-id policy of the streaming loop. */
module Sender {
  import opened Bytes

  /** Payload bytes per datagram. */
  const ChunkSize: nat := 8192

  /** Header bytes per datagram: frame id, chunk index, chunk count. */
  const HeaderSize: nat := 12

  /** Captured payloads above this size are recompressed before sending. */
  const RecompressThreshold: nat := 500_000

  /** `(len + CHUNK_SIZE - 1) / CHUNK_SIZE`, the number of chunks. */
  function TotalChunks(len: nat): nat
  {
    (len + ChunkSize - 1) / ChunkSize
  }

  /** `data.chunks(CHUNK_SIZE)`: consecutive slices of ChunkSize bytes, the
      last one possibly shorter, none of them empty. */
  function Chunks<T>(data: seq<T>): (r: seq<seq<T>>)
    ensures |r| == TotalChunks(|data|)
    ensures forall i :: 0 <= i < |r| ==> 0 < |r[i]| <= ChunkSize
    ensures forall i :: 0 <= i < |r| - 1 ==> |r[i]| == ChunkSize
    decreases |data|
  {
    if |data| == 0 then []
    else if |data| <= ChunkSize then [data]
    else [data[..ChunkSize]] + Chunks(data[ChunkSize..])
  }

  /** The chunks, concatenated in order, give back the data. */
  lemma {:induction false} ChunksFlatten<T>(data: seq<T>)
    ensures Flatten(Chunks(data)) == data
    decreases |data|
  {
    if |data| > ChunkSize {
      ChunksFlatten(data[ChunkSize..]);
      assert data == data[..ChunkSize] + data[ChunkSize..];
    }
  }

  /** End of chunk `i`: the next chunk boundary, or the end of the data. */
  function ChunkEnd(len: nat, i: nat): nat
  {
    if (i + 1) * ChunkSize <= len then (i + 1) * ChunkSize else len
  }

  lemma SliceOfSuffix<T>(data: seq<T>, k: nat, lo: nat, hi: nat)
    requires k <= |data| && lo <= hi <= |data| - k
    ensures data[k..][lo..hi] == data[k + lo .. k + hi]
  {
  }

  lemma ChunkEndShift(len: nat, i: nat)
    requires i > 0 && len >= ChunkSize
    ensures ChunkEnd(len - ChunkSize, i - 1) + ChunkSize == ChunkEnd(len, i)
    ensures (i - 1) * ChunkSize + ChunkSize == i * ChunkSize
  {
  }

  /** Past the first chunk, the chunks are those of the rest of the data. */
  lemma ChunksTail<T>(data: seq<T>, i: nat)
    requires 0 < i < |Chunks(data)|
    ensures |data| > ChunkSize && i - 1 < |Chunks(data[ChunkSize..])|
    ensures Chunks(data)[i] == Chunks(data[ChunkSize..])[i - 1]
  {
  }

  /** Chunk `i` is exactly the slice of `data` starting at `i * ChunkSize`. */
  lemma {:induction false} ChunkContents<T>(data: seq<T>, i: nat)
    requires i < |Chunks(data)|
    ensures i * ChunkSize < ChunkEnd(|data|, i) <= |data|
    ensures Chunks(data)[i] == data[i * ChunkSize .. ChunkEnd(|data|, i)]
    decreases i
  {
    if i > 0 {
      var rest := data[ChunkSize..];
      ChunksTail(data, i);
      ChunkContents(rest, i - 1);
      ChunkEndShift(|data|, i);
      SliceOfSuffix(data, ChunkSize, (i - 1) * ChunkSize, ChunkEnd(|rest|, i - 1));
    }
  }

  /** One datagram: BE32(frame id) ++ BE32(i as u32) ++ BE32(total as u32) ++ chunk. */
  function Packet(frameId: u32, index: nat, total: nat, chunk: seq<byte>): (p: seq<byte>)
    ensures |p| == HeaderSize + |chunk|
    ensures p[HeaderSize..] == chunk
    ensures FromBE32(p[0..4]) == frameId
    ensures index < U32Modulus ==> FromBE32(p[4..8]) == index
    ensures total < U32Modulus ==> FromBE32(p[8..12]) == total
  {
    var p := BE32(frameId) + BE32(AsU32(index)) + BE32(AsU32(total)) + chunk;
    assert p[0..4] == BE32(frameId);
    assert p[4..8] == BE32(AsU32(index));
    assert p[8..12] == BE32(AsU32(total));
    DecodeEncodeBE32(frameId);
    DecodeEncodeBE32(AsU32(index));
    DecodeEncodeBE32(AsU32(total));
    p
  }

  /** Every datagram `send_chunked` would emit for `data`, in send order. */
  function Packets(frameId: u32, data: seq<byte>): (r: seq<seq<byte>>)
    ensures |r| == TotalChunks(|data|)
    ensures forall i :: 0 <= i < |r| ==>
      r[i] == Packet(frameId, i, TotalChunks(|data|), Chunks(data)[i])
  {
    var chunks := Chunks(data);
    seq(|chunks|, i requires 0 <= i < |chunks| => Packet(frameId, i, |chunks|, chunks[i]))
  }

  /** The payload bytes (12..) of each packet, in index order, give back the input. */
  lemma PacketPayloadsRoundTrip(frameId: u32, data: seq<byte>)
    ensures var ps := Packets(frameId, data);
      Flatten(seq(|ps|, i requires 0 <= i < |ps| => ps[i][HeaderSize..])) == data
  {
    var ps := Packets(frameId, data);
    var payloads := seq(|ps|, i requires 0 <= i < |ps| => ps[i][HeaderSize..]);
    assert payloads == Chunks(data);
    ChunksFlatten(data);
  }

  /** The least index in `[from, n)` whose send fails, or `n` if none does. */
  function FirstFailure(fails: set<nat>, from: nat, n: nat): (k: nat)
    requires from <= n
    ensures from <= k <= n
    ensures forall j :: from <= j < k ==> j !in fails
    ensures k < n ==> k in fails
    decreases n - from
  {
    if from == n then n
    else if from in fails then from
    else FirstFailure(fails, from + 1, n)
  }

  /** What one call of `send_chunked` puts on the wire, and whether it returned Ok. */
  datatype SendResult = SendResult(sent: seq<seq<byte>>, ok: bool)

  /** `send_chunked`: send the packets in index order; the socket is modelled
      by `fails`, the set of chunk indices whose `send_to` fails. The first
      failure aborts the loop with an error. */
  function SendChunked(frameId: u32, data: seq<byte>, fails: set<nat>): (r: SendResult)
    ensures r.sent <= Packets(frameId, data)
    ensures r.ok <==> forall i :: 0 <= i < TotalChunks(|data|) ==> i !in fails
    ensures r.ok ==> r.sent == Packets(frameId, data)
    ensures !r.ok ==> |r.sent| < TotalChunks(|data|) && |r.sent| in fails
    ensures forall j :: 0 <= j < |r.sent| ==> j !in fails
  {
    var packets := Packets(frameId, data);
    var k := FirstFailure(fails, 0, |packets|);
    SendResult(packets[..k], k == |packets|)
  }

  /** The empty payload produces no datagram at all and succeeds. */
  lemma EmptyPayloadSendsNothing(frameId: u32, fails: set<nat>)
    ensures SendChunked(frameId, [], fails) == SendResult([], true)
  {
  }

  /** What the foreign capture function returned for one loop iteration. */
  datatype Capture = CaptureFailed | Captured(data: seq<byte>)

  /** One iteration of the streaming loop: the inputs the environment provides. */
  datatype CycleInput = CycleInput(
    capture: Capture,
    recompressed: Option<seq<byte>>,  // outcome of recompress_jpeg, consulted only above the threshold
    fails: set<nat>)                  // chunk indices whose send fails

  /** The effect of one loop iteration. */
  datatype Cycle = Cycle(nextFrameId: u32, sent: seq<seq<byte>>, sleeps: bool)

  /** The payload the iteration hands to `send_chunked`, if any. */
  function Payload(input: CycleInput): Option<seq<byte>>
  {
    match input.capture
    case CaptureFailed => None
    case Captured(data) =>
      if |data| > RecompressThreshold then input.recompressed else Some(data)
  }

  /** The frame id the next iteration starts with: incremented after the
      send branch, whatever the send outcome; unchanged when the capture
      failed or the recompression of an oversized capture failed. */
  function NextFrameId(frameId: u32, input: CycleInput): u32
  {
    match input.capture
    case CaptureFailed => frameId
    case Captured(data) =>
      if |data| > RecompressThreshold && input.recompressed.None? then frameId
      else WrappingInc(frameId)
  }

  /** One iteration of the `start_streaming` loop body. */
  function StreamCycle(frameId: u32, input: CycleInput): (c: Cycle)
    ensures Payload(input).None? ==> c.sent == []
    ensures Payload(input).Some? ==> c.sent == SendChunked(frameId, Payload(input).value, input.fails).sent
    ensures forall p :: p in c.sent ==> FromBE32(p[0..4]) == frameId
  {
    match input.capture
    case CaptureFailed => Cycle(NextFrameId(frameId, input), [], true)
    case Captured(data) =>
      if |data| > RecompressThreshold && input.recompressed.None? then
        Cycle(NextFrameId(frameId, input), [], false)
      else
        var payload := if |data| > RecompressThreshold then input.recompressed.value else data;
        var r := SendChunked(frameId, payload, input.fails);
        Cycle(NextFrameId(frameId, input), r.sent, true)
  }

  /** The frame id advances (by one, wrapping) exactly when a payload reached
      `send_chunked`, whatever the send outcome; the sleep is skipped only on
      a recompress failure. */
  lemma FrameIdPolicy(frameId: u32, input: CycleInput)
    ensures StreamCycle(frameId, input).nextFrameId ==
      (if Payload(input).Some? then WrappingInc(frameId) else frameId)
    ensures !StreamCycle(frameId, input).sleeps <==>
      (input.capture.Captured? && |input.capture.data| > RecompressThreshold && input.recompressed.None?)
    ensures forall fails' ::
      (StreamCycle(frameId, input.(fails := fails')).nextFrameId == StreamCycle(frameId, input).nextFrameId)
  {
  }

  /** 1 if the iteration handed a payload to `send_chunked`, else 0. */
  function Advance(input: CycleInput): nat
  {
    if Payload(input).Some? then 1 else 0
  }

  /** Number of iterations that handed a payload to `send_chunked`. */
  function Attempts(inputs: seq<CycleInput>): nat
  {
    if |inputs| == 0 then 0 else Advance(inputs[0]) + Attempts(inputs[1..])
  }

  /** Frame id after running the loop over `inputs`. */
  function FrameIdAfter(frameId: u32, inputs: seq<CycleInput>): u32
    decreases |inputs|
  {
    if |inputs| == 0 then frameId
    else FrameIdAfter(NextFrameId(frameId, inputs[0]), inputs[1..])
  }

  /** The id after a run is the initial id advanced once per payload handed
      to the sender. */
  lemma {:induction false} FrameIdCountsAttempts(frameId: u32, inputs: seq<CycleInput>)
    ensures FrameIdAfter(frameId, inputs) == WrappingIncs(frameId, Attempts(inputs))
    decreases |inputs|
  {
    if |inputs| > 0 {
      if Advance(inputs[0]) == 1 {
        FrameIdCountsAttempts(WrappingInc(frameId), inputs[1..]);
      } else {
        FrameIdCountsAttempts(frameId, inputs[1..]);
      }
    }
  }

  /** From the initial id 0 the id after any run is the number of payloads
      handed to the sender, modulo 2^32. */
  lemma FrameIdFromZero(inputs: seq<CycleInput>)
    ensures FrameIdAfter(0, inputs) == Attempts(inputs) % U32Modulus
  {
    FrameIdCountsAttempts(0, inputs);
    WrappingIncsIsMod(0, Attempts(inputs));
  }
}
