/** The receiving side of the chunked-frame transport (udp_client.rs): one
    iteration of the receive loop as a pure step over the in-flight table,
    with the clock reading passed in explicitly (milliseconds). */
module Receiver {
  import opened Bytes

  /** Entries not refreshed for this long are discarded. */
  const FrameTimeoutMs: nat := 1000

  /** Smallest frame the receiver accepts as a JPEG image. */
  const MinFrameSize: nat := 100

  /** The 12-byte datagram header, decoded. */
  datatype Header = Header(frameId: u32, chunkIndex: u32, totalChunks: u32)

  /** A decoded datagram: its header and the payload bytes 12..size. */
  datatype Datagram = Datagram(header: Header, payload: seq<byte>)

  /** One in-flight frame: one slot per chunk (an empty buffer means "not yet
      received") and the time of the last chunk that touched it. */
  datatype Entry = Entry(slots: seq<seq<byte>>, lastUpdate: nat)

  /** The in-flight table, keyed by frame id. */
  type Table = map<u32, Entry>

  /** The new table and the frame handed to the consumer, if any. */
  datatype StepResult = StepResult(table: Table, emitted: Option<seq<byte>>)

  /** Decode the header big-endian from bytes 0-3, 4-7 and 8-11; datagrams
      shorter than the header are rejected. */
  function Parse(d: seq<byte>): (r: Option<Datagram>)
    ensures r.None? <==> |d| < 12
    ensures r.Some? ==> r.value.payload == d[12..] && |d| == 12 + |r.value.payload|
    ensures r.Some? ==>
      (&& BE32(r.value.header.frameId) == d[0..4]
       && BE32(r.value.header.chunkIndex) == d[4..8]
       && BE32(r.value.header.totalChunks) == d[8..12])
  {
    if |d| < 12 then None
    else
      EncodeDecodeBE32(d[0..4]);
      EncodeDecodeBE32(d[4..8]);
      EncodeDecodeBE32(d[8..12]);
      Some(Datagram(Header(FromBE32(d[0..4]), FromBE32(d[4..8]), FromBE32(d[8..12])), d[12..]))
  }

  /** Milliseconds from `since` to `now`; zero if `since` is later
      (`Instant::duration_since` saturates). */
  function Age(now: nat, since: nat): nat
  {
    if now >= since then now - since else 0
  }

  predicate Fresh(now: nat, e: Entry)
  {
    Age(now, e.lastUpdate) < FrameTimeoutMs
  }

  /** `retain`: keep exactly the entries younger than the timeout. */
  function Evict(t: Table, now: nat): (r: Table)
    ensures forall id :: id in r <==> id in t && Fresh(now, t[id])
    ensures forall id :: id in r ==> r[id] == t[id]
  {
    map id | id in t && Fresh(now, t[id]) :: t[id]
  }

  /** Every slot holds at least one byte; zero-length chunks never count. */
  predicate Complete(slots: seq<seq<byte>>)
  {
    forall i :: 0 <= i < |slots| ==> |slots[i]| > 0
  }

  /** The receiver's JPEG plausibility check: at least 100 bytes, starting
      with the SOI marker FF D8 and ending with the EOI marker FF D9 (Table
      B.1, Annex B of ITU-T T.81). */
  predicate ValidJpeg(frame: seq<byte>)
  {
    && |frame| >= MinFrameSize
    && frame[0] == 0xFF && frame[1] == 0xD8
    && frame[|frame| - 2] == 0xFF && frame[|frame| - 1] == 0xD9
  }

  /** The entry a datagram lands in: the existing one, or a new one with as
      many empty slots as the datagram's chunk count. */
  function EntryFor(live: Table, h: Header, now: nat): (e: Entry)
    ensures h.frameId in live ==> e.slots == live[h.frameId].slots
    ensures h.frameId !in live ==> |e.slots| == h.totalChunks && forall i :: 0 <= i < |e.slots| ==> e.slots[i] == []
    ensures e.lastUpdate == now
  {
    var slots := if h.frameId in live then live[h.frameId].slots else seq(h.totalChunks, _ => []);
    Entry(slots, now)
  }

  /** One iteration of the receive loop for one datagram arriving at `now`. */
  function Step(t: Table, now: nat, d: seq<byte>): (r: StepResult)
    // A datagram shorter than the header changes nothing.
    ensures |d| < 12 ==> r == StepResult(t, None)
    // Eviction bound: after an accepted datagram every entry is fresh at `now`.
    ensures |d| >= 12 ==> forall id :: id in r.table ==> Fresh(now, r.table[id])
    // Entries of other frames survive exactly when they are fresh, unchanged.
    ensures |d| >= 12 ==> forall id :: id != FromBE32(d[0..4]) ==>
      ((id in r.table <==> id in t && Fresh(now, t[id])) && (id in r.table ==> r.table[id] == t[id]))
    // Only a complete, valid frame is emitted.
    ensures r.emitted.Some? ==> ValidJpeg(r.emitted.value) && FromBE32(d[0..4]) !in r.table
  {
    match Parse(d)
    case None => StepResult(t, None)
    case Some(dg) =>
      var h := dg.header;
      var live := Evict(t, now);
      var e := EntryFor(live, h, now);
      if h.chunkIndex < |e.slots| then
        var slots := e.slots[h.chunkIndex := dg.payload];
        if Complete(slots) then
          var frame := Flatten(slots);
          StepResult(live - {h.frameId}, if ValidJpeg(frame) then Some(frame) else None)
        else
          StepResult(live[h.frameId := Entry(slots, now)], None)
      else
        StepResult(live[h.frameId := e], None)
  }

  /** The slots the datagram's frame has when the datagram is applied: those
      of its fresh entry, or a new all-empty vector sized by the header. */
  function SlotsBefore(t: Table, now: nat, h: Header): seq<seq<byte>>
  {
    if h.frameId in t && Fresh(now, t[h.frameId]) then t[h.frameId].slots
    else seq(h.totalChunks, _ => [])
  }

  /** An out-of-range index leaves the slots as they were, still refreshes
      (or creates) the entry, and emits nothing. */
  lemma StepBadIndex(t: Table, now: nat, d: seq<byte>, dg: Datagram)
    requires Parse(d) == Some(dg)
    requires dg.header.chunkIndex >= |SlotsBefore(t, now, dg.header)|
    ensures Step(t, now, d).emitted.None?
    ensures dg.header.frameId in Step(t, now, d).table
    ensures Step(t, now, d).table[dg.header.frameId] == Entry(SlotsBefore(t, now, dg.header), now)
  {
  }

  /** An in-range index that leaves some slot empty stores the chunk, stamps
      the entry with `now`, and emits nothing. */
  lemma StepPartial(t: Table, now: nat, d: seq<byte>, dg: Datagram)
    requires Parse(d) == Some(dg)
    requires dg.header.chunkIndex < |SlotsBefore(t, now, dg.header)|
    requires !Complete(SlotsBefore(t, now, dg.header)[dg.header.chunkIndex := dg.payload])
    ensures Step(t, now, d).emitted.None?
    ensures dg.header.frameId in Step(t, now, d).table
    ensures Step(t, now, d).table[dg.header.frameId]
      == Entry(SlotsBefore(t, now, dg.header)[dg.header.chunkIndex := dg.payload], now)
  {
  }

  /** The chunk that fills the last empty slot removes the entry, whether or
      not the frame is a valid JPEG, and the concatenated slots are emitted
      exactly when they are one. */
  lemma StepCompletes(t: Table, now: nat, d: seq<byte>, dg: Datagram)
    requires Parse(d) == Some(dg)
    requires dg.header.chunkIndex < |SlotsBefore(t, now, dg.header)|
    requires Complete(SlotsBefore(t, now, dg.header)[dg.header.chunkIndex := dg.payload])
    ensures dg.header.frameId !in Step(t, now, d).table
    ensures var frame := Flatten(SlotsBefore(t, now, dg.header)[dg.header.chunkIndex := dg.payload]);
      Step(t, now, d).emitted == if ValidJpeg(frame) then Some(frame) else None
    ensures Step(t, now, d).emitted.Some? ==>
      |Step(t, now, d).emitted.value| == SumLengths(SlotsBefore(t, now, dg.header)[dg.header.chunkIndex := dg.payload])
  {
    FlattenLength(SlotsBefore(t, now, dg.header)[dg.header.chunkIndex := dg.payload]);
  }

  /** An entry whose last chunk is at least the timeout old is gone after any
      accepted datagram: if the datagram belongs to the same frame, it starts
      a new entry whose only filled slot is its own. */
  lemma StaleEntryDiscarded(t: Table, now: nat, d: seq<byte>, id: u32)
    requires |d| >= 12
    requires id in t && !Fresh(now, t[id])
    ensures var r := Step(t, now, d);
      id in r.table ==>
        (&& id == FromBE32(d[0..4])
         && |r.table[id].slots| == FromBE32(d[8..12])
         && forall j :: 0 <= j < |r.table[id].slots| && j != FromBE32(d[4..8]) ==> r.table[id].slots[j] == [])
  {
  }

  /** Delivering a chunk that is already in place to an incomplete frame
      changes nothing but the entry's timestamp, and emits nothing. */
  lemma DuplicateChunkIdempotent(t: Table, now: nat, d: seq<byte>)
    requires |d| >= 12
    requires var h := Parse(d).value.header;
      && h.frameId in t && Fresh(now, t[h.frameId])
      && h.chunkIndex < |t[h.frameId].slots|
      && t[h.frameId].slots[h.chunkIndex] == d[12..]
      && !Complete(t[h.frameId].slots)
    ensures var h := Parse(d).value.header;
      var r := Step(t, now, d);
      r.emitted.None? && h.frameId in r.table && r.table[h.frameId] == t[h.frameId].(lastUpdate := now)
  {
    var h := Parse(d).value.header;
    var slots := t[h.frameId].slots;
    assert slots[h.chunkIndex := d[12..]] == slots;
  }

  /** A new frame announcing zero chunks gets an entry that no datagram can
      ever fill, so it lingers until evicted. */
  lemma ZeroChunkFrameNeverCompletes(t: Table, now: nat, d: seq<byte>)
    requires |d| >= 12
    requires FromBE32(d[8..12]) == 0
    requires FromBE32(d[0..4]) !in t
    ensures var r := Step(t, now, d);
      r.emitted.None? && FromBE32(d[0..4]) in r.table && r.table[FromBE32(d[0..4])].slots == []
  {
  }
}
