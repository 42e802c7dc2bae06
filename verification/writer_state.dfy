/** The writer's bookkeeping: the latest offset per partition, the pending
    fault and the count of written records, and how one processed record
    changes them. */
module WriterState {
  import opened Records
  import opened ConverterRegistry
  import opened Retry

  /** A Java `int`. */
  newtype int32 = x: int | -0x8000_0000 <= x < 0x8000_0000


  /** `AtomicInteger.incrementAndGet`: one more, with 32-bit wrap-around. */
  function IncrementAndGet(c: int32): (r: int32)
    ensures (r as int - c as int - 1) % 0x1_0000_0000 == 0
  {
    if c == 0x7fff_ffff then -0x8000_0000 else c + 1
  }

  /** The state shared between the writer and flush callers. */
  datatype State = State(
    latestOffsets: map<TopicPartition, int>,
    fault: Option<Fault>,
    count: int32)

  /** The state right after construction. */
  const Initial: State := State(map[], None, 0)

  /** `processedRecord`: the record's partition entry becomes its offset,
      replacing whatever was there, larger or not; nothing else changes. */
  function ProcessedRecord(s: State, r: Record): (s': State)
    ensures r.Partition() in s'.latestOffsets && s'.latestOffsets[r.Partition()] == r.offset
    ensures s'.latestOffsets.Keys == s.latestOffsets.Keys + {r.Partition()}
    ensures forall tp :: tp in s.latestOffsets && tp != r.Partition() ==>
              s'.latestOffsets[tp] == s.latestOffsets[tp]
    ensures s'.fault == s.fault && s'.count == s.count
  {
    s.(latestOffsets := s.latestOffsets[r.Partition() := r.offset])
  }

  /** `setException`: the new fault replaces any earlier one. */
  function SetException(s: State, f: Fault): (s': State)
    ensures s'.fault == Some(f)
    ensures s'.latestOffsets == s.latestOffsets && s'.count == s.count
  {
    s.(fault := Some(f))
  }

  /** A record as the run loop takes it, with the gateway's answers to the
      store attempts made for it. */
  datatype Delivery = Delivery(record: Record, gateway: nat -> GatewayResult)

  /** A record the run loop has handled, with the account of its store. */
  datatype Processed = Processed(record: Record, report: StoreReport)

  /** The effect of one handled record: on success the counter goes up, on
      failure the fault is set; then the offset is recorded either way. */
  function Apply(s: State, p: Processed): (s': State)
    ensures var tp := p.record.Partition();
            && tp in s'.latestOffsets && s'.latestOffsets[tp] == p.record.offset
            && s'.latestOffsets.Keys == s.latestOffsets.Keys + {tp}
            && forall other :: other in s.latestOffsets && other != tp ==>
                 s'.latestOffsets[other] == s.latestOffsets[other]
    ensures p.report.Succeeded() ==> s'.fault == s.fault && s'.count == IncrementAndGet(s.count)
    ensures !p.report.Succeeded() ==> s'.fault == p.report.fault && s'.count == s.count
  {
    var afterStore := match p.report.fault
                      case None => s.(count := IncrementAndGet(s.count))
                      case Some(f) => SetException(s, f);
    ProcessedRecord(afterStore, p.record)
  }

  /** One iteration of the run loop once a record is taken: `store`, then
      `processedRecord` whatever the store's outcome. */
  function Step(reg: Registry, s: State, d: Delivery): (s': State)
    requires reg.Valid()
    ensures var tp := d.record.Partition();
            && tp in s'.latestOffsets && s'.latestOffsets[tp] == d.record.offset
            && s'.latestOffsets.Keys == s.latestOffsets.Keys + {tp}
            && forall other :: other in s.latestOffsets && other != tp ==>
                 s'.latestOffsets[other] == s.latestOffsets[other]
    // A record with no converter, or one that fails to convert, sets the fault
    // and leaves the counter alone.
    ensures GetDoc(reg, d.record).Err? && !GetDoc(reg, d.record).fault.Retryable() ==>
              s'.fault == Some(GetDoc(reg, d.record).fault) && s'.count == s.count
    // A convertible record counts once if an allowed attempt succeeds, and
    // otherwise sets the fault to the last store error.
    ensures GetDoc(reg, d.record).Ok? ==>
              if exists k :: 0 <= k < NumRetries && d.gateway(k).Stored?
              then s'.fault == s.fault && s'.count == IncrementAndGet(s.count)
              else s'.fault == Some(StoreFailed(d.gateway(NumRetries - 1).error)) && s'.count == s.count
    ensures d.record.valueSchema.None? ==> s'.fault == Some(NullSchema) && s'.count == s.count
  {
    Apply(s, Processed(d.record, StoreRecord(reg, d.record, d.gateway)))
  }

  /** The records of `ds` as the run loop handles them. */
  function Handle(reg: Registry, ds: seq<Delivery>): (ps: seq<Processed>)
    requires reg.Valid()
    ensures |ps| == |ds|
    decreases |ds|
  {
    if ds == [] then []
    else [Processed(ds[0].record, StoreRecord(reg, ds[0].record, ds[0].gateway))] + Handle(reg, ds[1..])
  }

  /** The state after applying handled records in order. */
  function Replay(s: State, ps: seq<Processed>): State
    decreases |ps|
  {
    if ps == [] then s else Replay(Apply(s, ps[0]), ps[1..])
  }

  /** The state after the run loop has taken and processed `ds` in order. */
  function ProcessAll(reg: Registry, s: State, ds: seq<Delivery>): State
    requires reg.Valid()
  {
    Replay(s, Handle(reg, ds))
  }

  /** Processing a batch is one step and then the rest of the batch. */
  lemma ProcessAllFront(reg: Registry, s: State, ds: seq<Delivery>)
    requires reg.Valid() && ds != []
    ensures ProcessAll(reg, s, ds) == ProcessAll(reg, Step(reg, s, ds[0]), ds[1..])
  {
    assert Handle(reg, ds)[1..] == Handle(reg, ds[1..]);
  }

  /** The offset of the last record of `ps` on partition `tp`, if any. */
  function LastOffset(ps: seq<Processed>, tp: TopicPartition): (o: Option<int>)
    ensures o.None? <==> forall i :: 0 <= i < |ps| ==> ps[i].record.Partition() != tp
    decreases |ps|
  {
    if ps == [] then None
    else match LastOffset(ps[1..], tp)
         case Some(o) => Some(o)
         case None => if ps[0].record.Partition() == tp then Some(ps[0].record.offset) else None
  }

  /** After a batch, each partition's entry is the offset of the LAST record
      handled on it, whether or not that record was stored; partitions the
      batch did not touch keep their entries. */
  lemma {:induction false} LastWriteWins(s: State, ps: seq<Processed>, tp: TopicPartition)
    ensures var t := Replay(s, ps).latestOffsets;
            && (tp in t <==> tp in s.latestOffsets || LastOffset(ps, tp).Some?)
            && (LastOffset(ps, tp).Some? ==> t[tp] == LastOffset(ps, tp).value)
            && (LastOffset(ps, tp).None? && tp in s.latestOffsets ==> t[tp] == s.latestOffsets[tp])
    decreases |ps|
  {
    if ps != [] {
      LastWriteWins(Apply(s, ps[0]), ps[1..], tp);
    }
  }

  /** The position of the record `LastOffset` reports: no later record is on
      the same partition. */
  lemma {:induction false} LastIndexOf(ps: seq<Processed>, tp: TopicPartition) returns (k: nat)
    requires LastOffset(ps, tp).Some?
    ensures k < |ps| && ps[k].record.Partition() == tp && ps[k].record.offset == LastOffset(ps, tp).value
    ensures forall i :: k < i < |ps| ==> ps[i].record.Partition() != tp
    decreases |ps|
  {
    if LastOffset(ps[1..], tp).Some? {
      var k' := LastIndexOf(ps[1..], tp);
      k := k' + 1;
      assert forall i :: k < i < |ps| ==> ps[i] == ps[1..][i - 1];
    } else {
      k := 0;
      assert forall i :: 0 < i < |ps| ==> ps[i] == ps[1..][i - 1];
    }
  }

  /** Offsets arrive in non-decreasing order within every partition. */
  ghost predicate InPartitionOrder(ps: seq<Processed>) {
    forall i, j :: 0 <= i < j < |ps| && ps[i].record.Partition() == ps[j].record.Partition() ==>
      ps[i].record.offset <= ps[j].record.offset
  }

  /** When each partition's offsets arrive in order, the entry of a partition
      the batch touched is the largest offset the batch delivered on it. */
  lemma OrderedBatchKeepsMaximum(s: State, ps: seq<Processed>, tp: TopicPartition)
    requires InPartitionOrder(ps)
    requires exists i :: 0 <= i < |ps| && ps[i].record.Partition() == tp
    ensures var t := Replay(s, ps).latestOffsets;
            && tp in t
            && (exists i :: 0 <= i < |ps| && ps[i].record.Partition() == tp && ps[i].record.offset == t[tp])
            && (forall i :: 0 <= i < |ps| && ps[i].record.Partition() == tp ==> ps[i].record.offset <= t[tp])
  {
    LastWriteWins(s, ps, tp);
    var k := LastIndexOf(ps, tp);
  }

  /** Nothing clears the pending fault: once set, it stays set. */
  lemma {:induction false} FaultIsSticky(s: State, ps: seq<Processed>)
    requires s.fault.Some?
    ensures Replay(s, ps).fault.Some?
    decreases |ps|
  {
    if ps != [] {
      FaultIsSticky(Apply(s, ps[0]), ps[1..]);
    }
  }

  /** The number of handled records that were stored. */
  function StoredCount(ps: seq<Processed>): nat
    decreases |ps|
  {
    if ps == [] then 0
    else (if ps[0].report.Succeeded() then 1 else 0) + StoredCount(ps[1..])
  }

  /** Two whole multiples of 2^32 add up to one. */
  lemma MultiplesAdd(a: int, b: int)
    requires a % 0x1_0000_0000 == 0 && b % 0x1_0000_0000 == 0
    ensures (a + b) % 0x1_0000_0000 == 0
  {
  }

  /** The written-record counter advances by the number of stored records,
      modulo 2^32. */
  lemma {:induction false} CountTracksStored(s: State, ps: seq<Processed>)
    ensures (Replay(s, ps).count as int - s.count as int - StoredCount(ps)) % 0x1_0000_0000 == 0
    decreases |ps|
  {
    if ps != [] {
      var s1 := Apply(s, ps[0]);
      var one := if ps[0].report.Succeeded() then 1 else 0;
      CountTracksStored(s1, ps[1..]);
      MultiplesAdd(Replay(s1, ps[1..]).count as int - s1.count as int - StoredCount(ps[1..]),
                   s1.count as int - s.count as int - one);
    }
  }
}
