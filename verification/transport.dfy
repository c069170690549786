/** End-to-end properties of the chunked-frame transport: the datagrams the
    sender produces, fed to the receiver's step function in any order, with
    duplicates, within the staleness window, reassemble the payload at the
    delivery that supplies the last missing chunk; deliveries after that one
    start the frame over. */
module Transport {
  import opened Bytes
  import opened Sender
  import opened Receiver

  /** `pk` are the datagrams of frame `frameId` carrying `chunks`: datagram
      `i` is the packet with header `(frameId, i, |pk|)` and payload `chunks[i]`. */
  predicate Framed(pk: seq<seq<byte>>, frameId: u32, chunks: seq<seq<byte>>)
  {
    && |pk| == |chunks| < U32Modulus
    && forall i :: 0 <= i < |pk| ==> pk[i] == Packet(frameId, i, |pk|, chunks[i])
  }

  predicate NonEmpty(chunks: seq<seq<byte>>)
  {
    forall i :: 0 <= i < |chunks| ==> |chunks[i]| > 0
  }

  /** Header decoding inverts header encoding: the receiver parses a packet
      built by the sender into the sender's frame id, index, count and chunk. */
  lemma ParsePacket(frameId: u32, index: nat, total: nat, chunk: seq<byte>)
    requires index < U32Modulus && total < U32Modulus
    ensures Parse(Packet(frameId, index, total, chunk)) ==
      Some(Datagram(Header(frameId, index, total), chunk))
  {
  }

  /** The sender's datagrams are framed for the receiver, with non-empty
      chunks that concatenate back to the payload. */
  lemma PacketsFramed(frameId: u32, data: seq<byte>)
    requires TotalChunks(|data|) < U32Modulus
    ensures Framed(Packets(frameId, data), frameId, Chunks(data))
    ensures NonEmpty(Chunks(data)) && Flatten(Chunks(data)) == data
  {
    ChunksFlatten(data);
  }

  /** Every index below `n` is in `seen`. */
  predicate Covers(seen: set<nat>, n: nat)
  {
    forall j :: 0 <= j < n ==> j in seen
  }

  /** The entry's slots hold exactly the chunks whose indices are in `seen`. */
  predicate Holds(e: Entry, chunks: seq<seq<byte>>, seen: set<nat>)
  {
    && |e.slots| == |chunks|
    && forall j :: 0 <= j < |chunks| ==> e.slots[j] == (if j in seen then chunks[j] else [])
  }

  /** Before a delivery: either the frame's entry is fresh and holds exactly
      `seen`, or nothing of the frame has been kept. */
  predicate Ready(t: Table, now: nat, frameId: u32, chunks: seq<seq<byte>>, seen: set<nat>)
  {
    || (frameId in t && Fresh(now, t[frameId]) && Holds(t[frameId], chunks, seen))
    || (seen == {} && (frameId !in t || !Fresh(now, t[frameId])))
  }

  lemma BeforeHolds(t: Table, now: nat, frameId: u32, chunks: seq<seq<byte>>, seen: set<nat>, h: Header)
    requires h.frameId == frameId && h.totalChunks == |chunks|
    requires Ready(t, now, frameId, chunks, seen)
    ensures Holds(Entry(SlotsBefore(t, now, h), now), chunks, seen)
  {
  }

  lemma FillHolds(before: seq<seq<byte>>, chunks: seq<seq<byte>>, seen: set<nat>, i: nat)
    requires i < |chunks|
    requires Holds(Entry(before, 0), chunks, seen)
    ensures Holds(Entry(before[i := chunks[i]], 0), chunks, seen + {i})
  {
  }

  lemma FullHoldsIsChunks(slots: seq<seq<byte>>, chunks: seq<seq<byte>>, seen: set<nat>)
    requires Holds(Entry(slots, 0), chunks, seen) && Covers(seen, |chunks|)
    requires NonEmpty(chunks)
    ensures slots == chunks && Complete(slots)
  {
  }

  lemma MissingNotComplete(slots: seq<seq<byte>>, chunks: seq<seq<byte>>, seen: set<nat>)
    requires Holds(Entry(slots, 0), chunks, seen) && !Covers(seen, |chunks|)
    ensures !Complete(slots)
  {
    var j :| 0 <= j < |chunks| && j !in seen;
    assert slots[j] == [];
  }

  /** One delivery of chunk `i`: the slot is filled; the frame completes
      exactly when every index has been seen, and then it leaves the table and
      the concatenated chunks are emitted iff they form a valid JPEG. */
  lemma DeliverChunk(t: Table, now: nat, frameId: u32, pk: seq<seq<byte>>, chunks: seq<seq<byte>>, seen: set<nat>, i: nat)
    requires Framed(pk, frameId, chunks) && NonEmpty(chunks)
    requires i < |pk|
    requires Ready(t, now, frameId, chunks, seen)
    ensures var r := Step(t, now, pk[i]);
      if Covers(seen + {i}, |pk|) then
        frameId !in r.table && r.emitted == (if ValidJpeg(Flatten(chunks)) then Some(Flatten(chunks)) else None)
      else
        && r.emitted.None?
        && frameId in r.table && r.table[frameId].lastUpdate == now
        && Holds(r.table[frameId], chunks, seen + {i})
  {
    var dg := Datagram(Header(frameId, i, |pk|), chunks[i]);
    ParsePacket(frameId, i, |pk|, chunks[i]);
    var before := SlotsBefore(t, now, dg.header);
    BeforeHolds(t, now, frameId, chunks, seen, dg.header);
    var slots := before[i := chunks[i]];
    FillHolds(before, chunks, seen, i);
    if Covers(seen + {i}, |pk|) {
      FullHoldsIsChunks(slots, chunks, seen + {i});
      StepCompletes(t, now, pk[i], dg);
    } else {
      MissingNotComplete(slots, chunks, seen + {i});
      StepPartial(t, now, pk[i], dg);
    }
  }

  /** A datagram arriving at a given time. */
  datatype Arrival = Arrival(at: nat, datagram: seq<byte>)

  /** The table after a sequence of arrivals and the frames emitted, in order. */
  datatype FeedResult = FeedResult(table: Table, emitted: seq<seq<byte>>)

  /** The emissions of one arrival's step. */
  function Emitted(s: StepResult): (e: seq<seq<byte>>)
    ensures |e| <= 1 && (e == [] <==> s.emitted.None?)
    ensures s.emitted.Some? ==> e[0] == s.emitted.value
  {
    if s.emitted.Some? then [s.emitted.value] else []
  }

  /** The receive loop run over a sequence of arrivals. */
  function Feed(t: Table, arrivals: seq<Arrival>): FeedResult
    decreases |arrivals|
  {
    if |arrivals| == 0 then FeedResult(t, [])
    else
      var s := Step(t, arrivals[0].at, arrivals[0].datagram);
      var rest := Feed(s.table, arrivals[1..]);
      FeedResult(rest.table, Emitted(s) + rest.emitted)
  }

  /** The delivery of datagram number `index` at time `at`. */
  datatype Delivery = Delivery(at: nat, index: nat)

  predicate InRange(deliveries: seq<Delivery>, n: nat)
  {
    forall k :: 0 <= k < |deliveries| ==> deliveries[k].index < n
  }

  /** Consecutive deliveries are less than the staleness timeout apart. */
  predicate Prompt(deliveries: seq<Delivery>)
  {
    forall k :: 0 <= k < |deliveries| - 1 ==> Age(deliveries[k + 1].at, deliveries[k].at) < FrameTimeoutMs
  }

  function Indices(deliveries: seq<Delivery>): set<nat>
  {
    set k | 0 <= k < |deliveries| :: deliveries[k].index
  }

  /** The arrivals a schedule of deliveries makes of the datagrams `pk`. */
  function Schedule(pk: seq<seq<byte>>, deliveries: seq<Delivery>): (a: seq<Arrival>)
    requires InRange(deliveries, |pk|)
    ensures |a| == |deliveries|
  {
    seq(|deliveries|, k requires 0 <= k < |deliveries| => Arrival(deliveries[k].at, pk[deliveries[k].index]))
  }

  lemma IndicesCons(deliveries: seq<Delivery>)
    requires |deliveries| > 0
    ensures Indices(deliveries) == {deliveries[0].index} + Indices(deliveries[1..])
  {
    var rest := deliveries[1..];
    forall x | x in Indices(deliveries) ensures x in {deliveries[0].index} + Indices(rest) {
      var k :| 0 <= k < |deliveries| && deliveries[k].index == x;
      if k > 0 { assert rest[k - 1].index == x; }
    }
    forall x | x in Indices(rest) ensures x in Indices(deliveries) {
      var k :| 0 <= k < |rest| && rest[k].index == x;
      assert deliveries[k + 1].index == x;
    }
  }

  lemma PromptTail(deliveries: seq<Delivery>)
    requires |deliveries| > 1 && Prompt(deliveries)
    ensures Prompt(deliveries[1..])
    ensures Age(deliveries[1].at, deliveries[0].at) < FrameTimeoutMs
  {
    var rest := deliveries[1..];
    forall k | 0 <= k < |rest| - 1
      ensures Age(rest[k + 1].at, rest[k].at) < FrameTimeoutMs
    {
      assert rest[k] == deliveries[k + 1] && rest[k + 1] == deliveries[k + 2];
    }
  }

  lemma NotCoveredSubset(a: set<nat>, b: set<nat>, n: nat)
    requires a <= b && !Covers(b, n)
    ensures !Covers(a, n)
  {
    var j :| 0 <= j < n && j !in b;
  }

  /** Bookkeeping for a run whose last delivery is the completing one: the
      first delivery does not complete it, and the remaining run still
      completes exactly at its end. */
  lemma CompletesAtEnd(seen: set<nat>, deliveries: seq<Delivery>, n: nat)
    requires |deliveries| > 1
    requires !Covers(seen + Indices(deliveries[..|deliveries| - 1]), n)
    ensures var i := deliveries[0].index;
      var rest := deliveries[1..];
      && !Covers(seen + {i}, n)
      && (seen + {i}) + Indices(rest) == seen + Indices(deliveries)
      && (seen + {i}) + Indices(rest[..|rest| - 1]) == seen + Indices(deliveries[..|deliveries| - 1])
  {
    var i := deliveries[0].index;
    var rest := deliveries[1..];
    var init := deliveries[..|deliveries| - 1];
    IndicesCons(deliveries);
    IndicesCons(init);
    assert init[1..] == rest[..|rest| - 1];
    assert init[0] == deliveries[0];
    NotCoveredSubset(seen + {i}, seen + Indices(init), n);
  }

  /** One delivery followed by the rest of the run. */
  lemma FeedCons(t: Table, pk: seq<seq<byte>>, deliveries: seq<Delivery>)
    requires |deliveries| > 0
    requires InRange(deliveries, |pk|)
    ensures var s := Step(t, deliveries[0].at, pk[deliveries[0].index]);
      var rest := Feed(s.table, Schedule(pk, deliveries[1..]));
      Feed(t, Schedule(pk, deliveries))
        == FeedResult(rest.table, Emitted(s) + rest.emitted)
  {
    assert Schedule(pk, deliveries)[1..] == Schedule(pk, deliveries[1..]);
  }

  /** A first delivery that leaves the frame incomplete: the run continues
      from a table `t1` whose entry holds one more index and was refreshed at
      the first delivery's time, and the first step emitted nothing. */
  lemma FeedFirstPartial(t: Table, frameId: u32, pk: seq<seq<byte>>, chunks: seq<seq<byte>>,
                         seen: set<nat>, deliveries: seq<Delivery>) returns (t1: Table)
    requires Framed(pk, frameId, chunks) && NonEmpty(chunks)
    requires |deliveries| > 0 && InRange(deliveries, |pk|)
    requires Ready(t, deliveries[0].at, frameId, chunks, seen)
    requires !Covers(seen + {deliveries[0].index}, |pk|)
    ensures Feed(t, Schedule(pk, deliveries)) == Feed(t1, Schedule(pk, deliveries[1..]))
    ensures frameId in t1 && t1[frameId].lastUpdate == deliveries[0].at
    ensures Holds(t1[frameId], chunks, seen + {deliveries[0].index})
  {
    DeliverChunk(t, deliveries[0].at, frameId, pk, chunks, seen, deliveries[0].index);
    FeedCons(t, pk, deliveries);
    t1 := Step(t, deliveries[0].at, pk[deliveries[0].index]).table;
  }

  /** A first delivery that leaves the frame incomplete, seen from the rest
      of a prompt run: the remaining deliveries start from a table that is
      ready for them, holding one more index. */
  lemma FeedFirstFresh(t: Table, frameId: u32, pk: seq<seq<byte>>, chunks: seq<seq<byte>>,
                       seen: set<nat>, deliveries: seq<Delivery>) returns (t1: Table)
    requires Framed(pk, frameId, chunks) && NonEmpty(chunks)
    requires |deliveries| > 1 && InRange(deliveries, |pk|) && Prompt(deliveries)
    requires Ready(t, deliveries[0].at, frameId, chunks, seen)
    requires !Covers(seen + {deliveries[0].index}, |pk|)
    ensures Feed(t, Schedule(pk, deliveries)) == Feed(t1, Schedule(pk, deliveries[1..]))
    ensures InRange(deliveries[1..], |pk|) && Prompt(deliveries[1..])
    ensures Ready(t1, deliveries[1..][0].at, frameId, chunks, seen + {deliveries[0].index})
  {
    PromptTail(deliveries);
    t1 := FeedFirstPartial(t, frameId, pk, chunks, seen, deliveries);
  }

  /** A single delivery that completes the frame. */
  lemma FeedLastCompletes(t: Table, frameId: u32, pk: seq<seq<byte>>, chunks: seq<seq<byte>>,
                          seen: set<nat>, deliveries: seq<Delivery>)
    requires Framed(pk, frameId, chunks) && NonEmpty(chunks)
    requires |deliveries| == 1 && InRange(deliveries, |pk|)
    requires Ready(t, deliveries[0].at, frameId, chunks, seen)
    requires Covers(seen + Indices(deliveries), |pk|)
    ensures var f := Feed(t, Schedule(pk, deliveries));
      frameId !in f.table && f.emitted == (if ValidJpeg(Flatten(chunks)) then [Flatten(chunks)] else [])
  {
    IndicesCons(deliveries);
    assert Indices(deliveries[1..]) == {};
    assert seen + Indices(deliveries) == seen + {deliveries[0].index};
    DeliverChunk(t, deliveries[0].at, frameId, pk, chunks, seen, deliveries[0].index);
    FeedCons(t, pk, deliveries);
    assert deliveries[1..] == [];
  }

  /** Generalised round trip, by induction over the deliveries: starting from
      an entry holding `seen`, the run completes the frame exactly at its last
      delivery, emitting the concatenated chunks once (iff they form a valid
      JPEG). */
  lemma {:induction false} FeedCompletes(t: Table, frameId: u32, pk: seq<seq<byte>>, chunks: seq<seq<byte>>,
                                         seen: set<nat>, deliveries: seq<Delivery>)
    requires Framed(pk, frameId, chunks) && NonEmpty(chunks)
    requires |deliveries| > 0
    requires InRange(deliveries, |pk|) && Prompt(deliveries)
    requires Ready(t, deliveries[0].at, frameId, chunks, seen)
    requires Covers(seen + Indices(deliveries), |pk|)
    requires !Covers(seen + Indices(deliveries[..|deliveries| - 1]), |pk|)
    ensures var f := Feed(t, Schedule(pk, deliveries));
      frameId !in f.table && f.emitted == (if ValidJpeg(Flatten(chunks)) then [Flatten(chunks)] else [])
    decreases |deliveries|
  {
    var i := deliveries[0].index;
    if |deliveries| == 1 {
      FeedLastCompletes(t, frameId, pk, chunks, seen, deliveries);
    } else {
      CompletesAtEnd(seen, deliveries, |pk|);
      var t1 := FeedFirstFresh(t, frameId, pk, chunks, seen, deliveries);
      FeedCompletes(t1, frameId, pk, chunks, seen + {i}, deliveries[1..]);
    }
  }

  /** A prompt run of deliveries that supplies the last missing chunk of an
      `n`-chunk frame at its final delivery. */
  predicate CompletingRun(deliveries: seq<Delivery>, n: nat)
  {
    && |deliveries| > 0
    && InRange(deliveries, n) && Prompt(deliveries)
    && Covers(Indices(deliveries), n)
    && !Covers(Indices(deliveries[..|deliveries| - 1]), n)
  }

  /** Round trip: from a table that holds nothing of the frame, a run of
      deliveries of the sender's datagrams in any order, with any duplicates,
      each within the timeout of the previous one, and ending at the delivery
      that supplies the last missing chunk, emits exactly the original
      payload once (when it is a valid JPEG) and leaves no entry behind. A
      duplicate delivered after that point is covered by
      `LateDeliveriesStartOver`. */
  lemma ReassemblyRoundTrip(t: Table, frameId: u32, data: seq<byte>, deliveries: seq<Delivery>)
    requires TotalChunks(|data|) < U32Modulus
    requires frameId !in t
    requires CompletingRun(deliveries, TotalChunks(|data|))
    ensures var f := Feed(t, Schedule(Packets(frameId, data), deliveries));
      frameId !in f.table && f.emitted == (if ValidJpeg(data) then [data] else [])
  {
    PacketsFramed(frameId, data);
    assert {} + Indices(deliveries) == Indices(deliveries);
    assert {} + Indices(deliveries[..|deliveries| - 1]) == Indices(deliveries[..|deliveries| - 1]);
    FeedCompletes(t, frameId, Packets(frameId, data), Chunks(data), {}, deliveries);
  }

  /** Bookkeeping for the inductive step of a partial run: the indices and
      the last delivery time of the run are those of its tail, plus the first
      index. */
  lemma ConsBookkeeping(seen: set<nat>, deliveries: seq<Delivery>, n: nat)
    requires |deliveries| > 1
    requires !Covers(seen + Indices(deliveries), n)
    ensures var i := deliveries[0].index;
      var rest := deliveries[1..];
      && !Covers(seen + {i}, n)
      && (seen + {i}) + Indices(rest) == seen + Indices(deliveries)
      && rest[|rest| - 1].at == deliveries[|deliveries| - 1].at
  {
    IndicesCons(deliveries);
    NotCoveredSubset(seen + {deliveries[0].index}, seen + Indices(deliveries), n);
  }

  /** A single delivery that leaves the frame incomplete. */
  lemma FeedLastPartial(t: Table, frameId: u32, pk: seq<seq<byte>>, chunks: seq<seq<byte>>,
                        seen: set<nat>, deliveries: seq<Delivery>)
    requires Framed(pk, frameId, chunks) && NonEmpty(chunks)
    requires |deliveries| == 1 && InRange(deliveries, |pk|)
    requires Ready(t, deliveries[0].at, frameId, chunks, seen)
    requires !Covers(seen + Indices(deliveries), |pk|)
    ensures var f := Feed(t, Schedule(pk, deliveries));
      && f.emitted == []
      && frameId in f.table
      && f.table[frameId].lastUpdate == deliveries[0].at
      && Holds(f.table[frameId], chunks, seen + Indices(deliveries))
  {
    IndicesCons(deliveries);
    assert Indices(deliveries[1..]) == {};
    assert seen + Indices(deliveries) == seen + {deliveries[0].index};
    var t1 := FeedFirstPartial(t, frameId, pk, chunks, seen, deliveries);
    assert Schedule(pk, deliveries[1..]) == [];
  }

  /** Generalised partial run: while some index is still missing nothing is
      emitted and the entry holds exactly the chunks delivered so far. */
  lemma {:induction false} FeedIncomplete(t: Table, frameId: u32, pk: seq<seq<byte>>, chunks: seq<seq<byte>>,
                                          seen: set<nat>, deliveries: seq<Delivery>)
    requires Framed(pk, frameId, chunks) && NonEmpty(chunks)
    requires |deliveries| > 0
    requires InRange(deliveries, |pk|) && Prompt(deliveries)
    requires Ready(t, deliveries[0].at, frameId, chunks, seen)
    requires !Covers(seen + Indices(deliveries), |pk|)
    ensures var f := Feed(t, Schedule(pk, deliveries));
      && f.emitted == []
      && frameId in f.table
      && f.table[frameId].lastUpdate == deliveries[|deliveries| - 1].at
      && Holds(f.table[frameId], chunks, seen + Indices(deliveries))
    decreases |deliveries|
  {
    if |deliveries| == 1 {
      FeedLastPartial(t, frameId, pk, chunks, seen, deliveries);
    } else {
      var i := deliveries[0].index;
      ConsBookkeeping(seen, deliveries, |pk|);
      var t1 := FeedFirstFresh(t, frameId, pk, chunks, seen, deliveries);
      FeedIncomplete(t1, frameId, pk, chunks, seen + {i}, deliveries[1..]);
    }
  }

  /** A frame some of whose chunks never arrive is never emitted: no partial
      frame is salvaged, and its entry stays until it goes stale. */
  lemma IncompleteNeverEmitted(t: Table, frameId: u32, data: seq<byte>, deliveries: seq<Delivery>)
    requires TotalChunks(|data|) < U32Modulus
    requires frameId !in t
    requires |deliveries| > 0
    requires InRange(deliveries, TotalChunks(|data|)) && Prompt(deliveries)
    requires !Covers(Indices(deliveries), TotalChunks(|data|))
    ensures var f := Feed(t, Schedule(Packets(frameId, data), deliveries));
      f.emitted == [] && frameId in f.table
  {
    PacketsFramed(frameId, data);
    assert {} + Indices(deliveries) == Indices(deliveries);
    FeedIncomplete(t, frameId, Packets(frameId, data), Chunks(data), {}, deliveries);
  }

  /** Order-insensitivity: two delivery schedules that both supply the last
      missing chunk at their final delivery emit the same frames. */
  lemma ArrivalOrderIrrelevant(t: Table, frameId: u32, data: seq<byte>, d1: seq<Delivery>, d2: seq<Delivery>)
    requires TotalChunks(|data|) < U32Modulus
    requires frameId !in t
    requires CompletingRun(d1, TotalChunks(|data|)) && CompletingRun(d2, TotalChunks(|data|))
    ensures Feed(t, Schedule(Packets(frameId, data), d1)).emitted == Feed(t, Schedule(Packets(frameId, data), d2)).emitted
  {
    ReassemblyRoundTrip(t, frameId, data, d1);
    ReassemblyRoundTrip(t, frameId, data, d2);
  }

  lemma FeedFirst(t: Table, a: seq<Arrival>)
    requires |a| > 0
    ensures var s := Step(t, a[0].at, a[0].datagram);
      var rest := Feed(s.table, a[1..]);
      Feed(t, a) == FeedResult(rest.table, Emitted(s) + rest.emitted)
  {
  }

  /** The first arrival of a concatenation is the first arrival of its
      first part. */
  lemma FeedFirstOfAppend(t: Table, a: seq<Arrival>, b: seq<Arrival>)
    requires |a| > 0
    ensures var s := Step(t, a[0].at, a[0].datagram);
      var rest := Feed(s.table, a[1..] + b);
      Feed(t, a + b) == FeedResult(rest.table, Emitted(s) + rest.emitted)
  {
    assert (a + b)[0] == a[0] && (a + b)[1..] == a[1..] + b;
    FeedFirst(t, a + b);
  }

  lemma AppendAssoc<T>(x: seq<T>, y: seq<T>, z: seq<T>)
    ensures x + (y + z) == (x + y) + z
  {
  }

  /** Feeding two runs one after the other is feeding their concatenation. */
  lemma {:induction false} FeedAppend(t: Table, a: seq<Arrival>, b: seq<Arrival>)
    ensures var fa := Feed(t, a);
      var fb := Feed(fa.table, b);
      Feed(t, a + b) == FeedResult(fb.table, fa.emitted + fb.emitted)
    decreases |a|
  {
    if |a| > 0 {
      var s := Step(t, a[0].at, a[0].datagram);
      FeedFirst(t, a);
      FeedFirstOfAppend(t, a, b);
      FeedAppend(s.table, a[1..], b);
      var fa := Feed(s.table, a[1..]);
      AppendAssoc(Emitted(s), fa.emitted, Feed(fa.table, b).emitted);
    } else {
      assert a + b == b;
    }
  }

  lemma ScheduleAppend(pk: seq<seq<byte>>, d1: seq<Delivery>, d2: seq<Delivery>)
    requires InRange(d1, |pk|) && InRange(d2, |pk|)
    ensures InRange(d1 + d2, |pk|)
    ensures Schedule(pk, d1 + d2) == Schedule(pk, d1) + Schedule(pk, d2)
  {
  }

  /** Deliveries after the completing one start the frame over: the frame's
      entry is gone once it is emitted, so a late duplicate is treated as the
      first datagram of a new frame with the same id. */
  lemma LateDeliveriesStartOver(t: Table, frameId: u32, data: seq<byte>, deliveries: seq<Delivery>, late: seq<Delivery>)
    requires TotalChunks(|data|) < U32Modulus
    requires frameId !in t
    requires CompletingRun(deliveries, TotalChunks(|data|))
    requires InRange(late, TotalChunks(|data|))
    ensures var pk := Packets(frameId, data);
      var f := Feed(t, Schedule(pk, deliveries));
      var g := Feed(f.table, Schedule(pk, late));
      && frameId !in f.table
      && Feed(t, Schedule(pk, deliveries + late)) == FeedResult(g.table, (if ValidJpeg(data) then [data] else []) + g.emitted)
  {
    var pk := Packets(frameId, data);
    ReassemblyRoundTrip(t, frameId, data, deliveries);
    ScheduleAppend(pk, deliveries, late);
    FeedAppend(t, Schedule(pk, deliveries), Schedule(pk, late));
  }

  /** A run of one delivery covers the frame exactly when it has one chunk. */
  lemma SingleDelivery(dl: Delivery, n: nat)
    requires dl.index < n
    ensures InRange([dl], n) && Prompt([dl])
    ensures Covers(Indices([dl]), n) <==> n == 1
    ensures !Covers(Indices([dl][..0]), n)
    ensures CompletingRun([dl], n) <==> n == 1
  {
    IndicesCons([dl]);
    assert [dl][1..] == [] && [dl][..0] == [];
    assert Indices([dl]) == {dl.index};
    if n > 1 {
      var other := if dl.index == 0 then 1 else 0;
      assert other !in Indices([dl]);
    }
  }

  /** A one-chunk frame whose datagram arrives twice is emitted twice: the
      duplicate finds no entry and completes a new one at once. */
  lemma LateDuplicateReemits(t: Table, frameId: u32, data: seq<byte>)
    requires 0 < |data| <= ChunkSize
    requires frameId !in t && ValidJpeg(data)
    ensures Feed(t, Schedule(Packets(frameId, data), [Delivery(0, 0), Delivery(1, 0)])).emitted == [data, data]
  {
    var first := Delivery(0, 0);
    var late := Delivery(1, 0);
    assert TotalChunks(|data|) == 1;
    SingleDelivery(first, 1);
    SingleDelivery(late, 1);
    assert [first] + [late] == [Delivery(0, 0), Delivery(1, 0)];
    LateDeliveriesStartOver(t, frameId, data, [first], [late]);
    var f := Feed(t, Schedule(Packets(frameId, data), [first]));
    ReassemblyRoundTrip(f.table, frameId, data, [late]);
  }

  /** A lone datagram of a frame of several chunks that has no entry opens
      one and emits nothing. */
  lemma LoneChunkOpensEntry(t: Table, frameId: u32, data: seq<byte>, late: Delivery)
    requires 1 < TotalChunks(|data|) < U32Modulus
    requires frameId !in t
    requires late.index < TotalChunks(|data|)
    ensures var g := Feed(t, Schedule(Packets(frameId, data), [late]));
      g.emitted == [] && frameId in g.table
  {
    SingleDelivery(late, TotalChunks(|data|));
    IncompleteNeverEmitted(t, frameId, data, [late]);
  }

  /** In a frame of several chunks, a duplicate arriving after completion
      leaves an entry behind that nothing completes until it goes stale. */
  lemma LateDuplicateLeavesEntry(t: Table, frameId: u32, data: seq<byte>, deliveries: seq<Delivery>, late: Delivery)
    requires 1 < TotalChunks(|data|) < U32Modulus
    requires frameId !in t
    requires CompletingRun(deliveries, TotalChunks(|data|))
    requires late.index < TotalChunks(|data|)
    ensures var f := Feed(t, Schedule(Packets(frameId, data), deliveries + [late]));
      && frameId in f.table
      && f.emitted == (if ValidJpeg(data) then [data] else [])
  {
    var pk := Packets(frameId, data);
    var f := Feed(t, Schedule(pk, deliveries));
    var g := Feed(f.table, Schedule(pk, [late]));
    var once := if ValidJpeg(data) then [data] else [];
    assert Feed(t, Schedule(pk, deliveries + [late])) == FeedResult(g.table, once + g.emitted) by {
      assert InRange([late], TotalChunks(|data|));
      LateDeliveriesStartOver(t, frameId, data, deliveries, [late]);
    }
    assert g.emitted == [] && frameId in g.table by {
      assert frameId !in f.table by {
        ReassemblyRoundTrip(t, frameId, data, deliveries);
      }
      LoneChunkOpensEntry(f.table, frameId, data, late);
    }
    assert once + g.emitted == once;
  }

  /** The datagram does not touch frame `frameId`'s entry: too short to be
      accepted, or carrying another frame id. */
  predicate Foreign(d: seq<byte>, frameId: u32)
  {
    |d| < 12 || FromBE32(d[0..4]) != frameId
  }

  /** Interleaving: datagrams of other frames, arriving while the frame's
      entry is still fresh, leave that entry exactly as it was, so a frame's
      own deliveries reassemble it whatever other traffic comes between them. */
  lemma {:induction false} ForeignArrivalsKeepEntry(t: Table, frameId: u32, others: seq<Arrival>)
    requires frameId in t
    requires forall k :: 0 <= k < |others| ==> Foreign(others[k].datagram, frameId)
    requires forall k :: 0 <= k < |others| ==> Fresh(others[k].at, t[frameId])
    ensures frameId in Feed(t, others).table && Feed(t, others).table[frameId] == t[frameId]
    decreases |others|
  {
    if |others| > 0 {
      var s := Step(t, others[0].at, others[0].datagram);
      FeedFirst(t, others);
      assert frameId in s.table && s.table[frameId] == t[frameId];
      assert forall k :: 0 <= k < |others[1..]| ==> others[1..][k] == others[k + 1];
      ForeignArrivalsKeepEntry(s.table, frameId, others[1..]);
    }
  }

  /** So a frame ready for its next delivery stays ready across foreign
      arrivals, as long as its entry is still fresh at each of them. */
  lemma ForeignArrivalsKeepReady(t: Table, now: nat, frameId: u32, chunks: seq<seq<byte>>, seen: set<nat>, others: seq<Arrival>)
    requires frameId in t && Fresh(now, t[frameId]) && Holds(t[frameId], chunks, seen)
    requires forall k :: 0 <= k < |others| ==> Foreign(others[k].datagram, frameId)
    requires forall k :: 0 <= k < |others| ==> Fresh(others[k].at, t[frameId])
    ensures Ready(Feed(t, others).table, now, frameId, chunks, seen)
  {
    ForeignArrivalsKeepEntry(t, frameId, others);
  }
}
