/** A flush that is already waiting does not notice a fault set while it
    waits: a concrete run of the as-written wait next to the corrected one. */
module FlushFinding {
  import opened Records
  import opened ConverterRegistry
  import opened Retry
  import opened WriterState
  import opened Flush

  /** The partition the flush waits on. */
  const Partition5: TopicPartition := TopicPartition("mytopic", 5)

  /** One converter, for schema "string", storing the value under "mykey". */
  const StringRegistry: Registry :=
    Registry([Converter(["string"], (r: Record) => Some(Document([("mykey", r.value)])))], map["string" := 0])

  /** The record at offset 1000 of that partition. */
  const Record1000: Record := Record("mytopic", 5, None, "", Some(Schema(Some("string"))), "hi", 1000)

  /** A gateway that rejects every store call. */
  const AlwaysFails: nat -> GatewayResult := (k: nat) => GatewayResult.Failed("timeout")

  /** A flush for offset 1000 of ("mytopic", 5) starts before that record is
      processed and waits. The record then fails all three store attempts:
      the fault is set, yet its offset is recorded and the waiting flush is
      woken. The as-written wait returns normally on that wake-up, reporting
      a dropped record as flushed; the corrected wait fails with the fault. */
  lemma WaitingFlushMissesDroppedRecord()
    ensures Decide(Initial, map[Partition5 := 1000]) == Wait({Partition5})
    ensures Step(StringRegistry, Initial, Delivery(Record1000, AlwaysFails)).fault == Some(StoreFailed("timeout"))
    ensures Await(Initial, map[Partition5 := 1000],
                  [Step(StringRegistry, Initial, Delivery(Record1000, AlwaysFails))]) == Returned(1)
    ensures AwaitChecked(Initial, map[Partition5 := 1000],
                         [Step(StringRegistry, Initial, Delivery(Record1000, AlwaysFails))])
            == Outcome.Failed(StoreFailed("timeout"))
  {
    var targets := map[Partition5 := 1000];
    assert Record1000.Partition() == Partition5;
    assert Resolve(StringRegistry, Record1000) == Ok(0);
    assert GetDoc(StringRegistry, Record1000) == Ok(Document([("mykey", "hi")]));
    var after := Step(StringRegistry, Initial, Delivery(Record1000, AlwaysFails));
    assert !exists k :: 0 <= k < NumRetries && AlwaysFails(k).Stored?;
    assert after.fault == Some(StoreFailed("timeout"));
    assert after.latestOffsets[Partition5] == 1000;
    assert Partition5 in Unreached(targets.Keys, Initial.latestOffsets, targets);
    assert Unreached(targets.Keys, Initial.latestOffsets, targets) == {Partition5};
    assert Unreached({Partition5}, after.latestOffsets, targets) == {};
    var states := [Initial] + [after];
    var tables := Tables(states);
    assert tables[0] == Initial.latestOffsets && tables[1] == after.latestOffsets;
    assert Rounds({Partition5}, targets, tables[1..]) == Returned(0);
    assert Rounds(targets.Keys, targets, tables) == Returned(1);
    assert states[1..] == [after];
    assert RoundsChecked({Partition5}, targets, [after]) == Outcome.Failed(StoreFailed("timeout"));
    assert RoundsChecked(targets.Keys, targets, states) == Outcome.Failed(StoreFailed("timeout"));
  }
}
