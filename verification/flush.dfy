/** The flush barrier: what one pass of `flush` decides on a state, the
    pruning of its waiting list, and its wait across successive wake-ups. */
module Flush {
  import opened Records
  import opened WriterState

  /** Partition `tp` has an entry at or past its requested offset. */
  predicate Reached(offsets: map<TopicPartition, int>, tp: TopicPartition, target: int) {
    tp in offsets && offsets[tp] >= target
  }

  /** The requested partitions among `waiting` that have not reached their offset. */
  function Unreached(waiting: set<TopicPartition>, offsets: map<TopicPartition, int>,
                     targets: map<TopicPartition, int>): set<TopicPartition>
  {
    set tp | tp in waiting && tp in targets && !Reached(offsets, tp, targets[tp])
  }

  /** Nothing is left unreached exactly when every candidate has reached its offset. */
  lemma UnreachedEmpty(waiting: set<TopicPartition>, offsets: map<TopicPartition, int>,
                       targets: map<TopicPartition, int>)
    requires waiting <= targets.Keys
    ensures Unreached(waiting, offsets, targets) == {} <==>
              forall tp :: tp in waiting ==> Reached(offsets, tp, targets[tp])
  {
    if Unreached(waiting, offsets, targets) == {} {
      forall tp | tp in waiting
        ensures Reached(offsets, tp, targets[tp])
      {
        assert tp !in Unreached(waiting, offsets, targets);
      }
    }
  }

  datatype Decision = Fail(cause: Fault) | Return | Wait(waiting: set<TopicPartition>)

  /** What `flush` does on entry: a pending fault fails it without looking at
      offsets; otherwise it returns when every requested partition has
      reached its offset, and waits on the others if not. */
  function Decide(s: State, targets: map<TopicPartition, int>): (d: Decision)
    ensures s.fault.Some? ==> d == Fail(s.fault.value)
    ensures d.Fail? ==> s.fault.Some?
    ensures s.fault.None? ==>
              (d == Return <==> forall tp :: tp in targets ==> Reached(s.latestOffsets, tp, targets[tp]))
    ensures d.Wait? ==>
              && s.fault.None?
              && d.waiting != {}
              && forall tp :: tp in d.waiting <==> tp in targets && !Reached(s.latestOffsets, tp, targets[tp])
  {
    if s.fault.Some? then Fail(s.fault.value)
    else
      var waiting := Unreached(targets.Keys, s.latestOffsets, targets);
      UnreachedEmpty(targets.Keys, s.latestOffsets, targets);
      if waiting == {} then Return else Wait(waiting)
  }

  /** The waiting list after one pass, as a reference: the unreached
      partitions of `waiting`, in their original order. */
  function KeepUnreached(waiting: seq<TopicPartition>, offsets: map<TopicPartition, int>,
                         targets: map<TopicPartition, int>): seq<TopicPartition>
    requires forall i :: 0 <= i < |waiting| ==> waiting[i] in targets
    decreases |waiting|
  {
    if waiting == [] then []
    else
      var last := waiting[|waiting| - 1];
      KeepUnreached(waiting[..|waiting| - 1], offsets, targets)
      + (if Reached(offsets, last, targets[last]) then [] else [last])
  }

  /** The reference filter only removes: it keeps exactly the unreached
      partitions and never more copies of one than there were. */
  lemma {:induction false} KeepUnreachedOnlyRemoves(waiting: seq<TopicPartition>,
                                                    offsets: map<TopicPartition, int>,
                                                    targets: map<TopicPartition, int>)
    requires forall i :: 0 <= i < |waiting| ==> waiting[i] in targets
    ensures var rest := KeepUnreached(waiting, offsets, targets);
            && multiset(rest) <= multiset(waiting)
            && forall tp :: tp in rest <==> tp in waiting && !Reached(offsets, tp, targets[tp])
    decreases |waiting|
  {
    if waiting != [] {
      var front := waiting[..|waiting| - 1];
      var last := waiting[|waiting| - 1];
      KeepUnreachedOnlyRemoves(front, offsets, targets);
      assert waiting == front + [last];
      var kept := if Reached(offsets, last, targets[last]) then [] else [last];
      assert KeepUnreached(waiting, offsets, targets) == KeepUnreached(front, offsets, targets) + kept;
      assert multiset(waiting) == multiset(front) + multiset{last};
      assert multiset(kept) <= multiset{last};
    }
  }

  /** The iterator loop of `flush`: one pass over the waiting list removing
      each partition that has reached its requested offset. */
  method Prune(waiting: seq<TopicPartition>, offsets: map<TopicPartition, int>,
               targets: map<TopicPartition, int>) returns (rest: seq<TopicPartition>)
    requires forall i :: 0 <= i < |waiting| ==> waiting[i] in targets
    ensures rest == KeepUnreached(waiting, offsets, targets)
    ensures multiset(rest) <= multiset(waiting)
    ensures forall tp :: tp in rest <==> tp in waiting && !Reached(offsets, tp, targets[tp])
  {
    rest := [];
    var i := 0;
    while i < |waiting|
      invariant 0 <= i <= |waiting|
      invariant rest == KeepUnreached(waiting[..i], offsets, targets)
    {
      var tp := waiting[i];
      assert waiting[..i + 1][..i] == waiting[..i];
      if !Reached(offsets, tp, targets[tp]) {
        rest := rest + [tp];
      }
      i := i + 1;
    }
    assert waiting[..i] == waiting;
    KeepUnreachedOnlyRemoves(waiting, offsets, targets);
  }

  datatype Outcome = Failed(cause: Fault) | Returned(wakeups: nat) | Blocked(waiting: set<TopicPartition>)

  /** The wait loop of `flush` after the entry check: prune against each
      observed offset table in turn (the first is the table at entry, the
      others those seen after each wake-up) and return once nothing waits. */
  function Rounds(waiting: set<TopicPartition>, targets: map<TopicPartition, int>,
                  tables: seq<map<TopicPartition, int>>): (o: Outcome)
    requires waiting <= targets.Keys && tables != []
    ensures !o.Failed?
    ensures o.Returned? ==> o.wakeups < |tables|
    // It returns only once every waiting partition was seen reached in one of
    // the rounds up to its return.
    ensures o.Returned? ==>
              forall tp :: tp in waiting ==> exists j :: 0 <= j <= o.wakeups && Reached(tables[j], tp, targets[tp])
    // It returns exactly when every waiting partition was seen reached at some point.
    ensures o.Returned? <==>
              forall tp :: tp in waiting ==>
                exists j :: 0 <= j < |tables| && Reached(tables[j], tp, targets[tp])
    // A partition seen reached is never waited on again.
    ensures o.Blocked? ==>
              o.waiting != {} &&
              forall tp :: tp in o.waiting <==>
                tp in waiting && forall j :: 0 <= j < |tables| ==> !Reached(tables[j], tp, targets[tp])
    decreases |tables|
  {
    var rest := Unreached(waiting, tables[0], targets);
    UnreachedEmpty(waiting, tables[0], targets);
    if rest == {} then Returned(0)
    else if |tables| == 1 then Blocked(rest)
    else
      var o := Rounds(rest, targets, tables[1..]);
      RoundsShift(waiting, rest, targets, tables);
      assert forall j :: 0 <= j < |tables| - 1 ==> tables[1..][j] == tables[j + 1];
      match o
      case Returned(k) => Returned(k + 1)
      case _ => o
  }

  /** One pruning round and the rounds after it see the same tables as the
      whole wait. */
  lemma RoundsShift(waiting: set<TopicPartition>, rest: set<TopicPartition>,
                    targets: map<TopicPartition, int>, tables: seq<map<TopicPartition, int>>)
    requires waiting <= targets.Keys && tables != []
    requires rest == Unreached(waiting, tables[0], targets)
    ensures forall tp, j :: tp in waiting && 0 <= j < |tables| - 1 ==>
              (Reached(tables[1..][j], tp, targets[tp]) <==> Reached(tables[j + 1], tp, targets[tp]))
    ensures forall tp :: tp in waiting ==> (tp !in rest <==> Reached(tables[0], tp, targets[tp]))
  {
  }

  /** By round `k` every waiting partition has been seen reached in one of
      the tables up to `k`. */
  ghost predicate ReachedBy(waiting: set<TopicPartition>, targets: map<TopicPartition, int>,
                            tables: seq<map<TopicPartition, int>>, k: int)
  {
    && 0 <= k < |tables|
    && forall tp :: tp in waiting ==>
         tp in targets && exists j :: 0 <= j <= k && Reached(tables[j], tp, targets[tp])
  }

  /** The wait returns by the first round at which every waiting partition
      has been seen reached. */
  lemma {:induction false} RoundsReturns(waiting: set<TopicPartition>, targets: map<TopicPartition, int>,
                                         tables: seq<map<TopicPartition, int>>, k: int)
    requires waiting <= targets.Keys && tables != []
    requires ReachedBy(waiting, targets, tables, k)
    ensures Rounds(waiting, targets, tables).Returned?
    ensures Rounds(waiting, targets, tables).wakeups <= k
    decreases k
  {
    var rest := Unreached(waiting, tables[0], targets);
    if k == 0 {
      forall tp | tp in waiting
        ensures Reached(tables[0], tp, targets[tp])
      {
        var j :| 0 <= j <= 0 && Reached(tables[j], tp, targets[tp]);
      }
      UnreachedEmpty(waiting, tables[0], targets);
    } else if rest != {} {
      forall tp | tp in rest
        ensures tp in targets && exists j :: 0 <= j <= k - 1 && Reached(tables[1..][j], tp, targets[tp])
      {
        var j :| 0 <= j <= k && Reached(tables[j], tp, targets[tp]);
        assert tables[1..][j - 1] == tables[j];
      }
      RoundsReturns(rest, targets, tables[1..], k - 1);
    }
  }

  /** `RoundsReturns` for every round at once. */
  lemma RoundsReturnsAll(waiting: set<TopicPartition>, targets: map<TopicPartition, int>,
                         tables: seq<map<TopicPartition, int>>)
    requires waiting <= targets.Keys && tables != []
    ensures forall k :: ReachedBy(waiting, targets, tables, k) ==>
              Rounds(waiting, targets, tables).Returned? && Rounds(waiting, targets, tables).wakeups <= k
  {
    forall k | ReachedBy(waiting, targets, tables, k)
      ensures Rounds(waiting, targets, tables).Returned? && Rounds(waiting, targets, tables).wakeups <= k
    {
      RoundsReturns(waiting, targets, tables, k);
    }
  }

  /** The offset tables of a sequence of states. */
  function Tables(states: seq<State>): (ts: seq<map<TopicPartition, int>>)
    ensures |ts| == |states|
    ensures forall i :: 0 <= i < |states| ==> ts[i] == states[i].latestOffsets
  {
    seq(|states|, i requires 0 <= i < |states| => states[i].latestOffsets)
  }

  /** `flush` as written: the fault is looked at once, on entry; after that
      only offsets are consulted, in the entry state and in each state seen
      after a wake-up. */
  function Await(entry: State, targets: map<TopicPartition, int>, wakeups: seq<State>): (o: Outcome)
    ensures entry.fault.Some? ==> o == Failed(entry.fault.value)
    ensures entry.fault.None? ==>
              && !o.Failed?
              && (o.Returned? <==>
                    forall tp :: tp in targets ==>
                      exists j :: 0 <= j < |wakeups| + 1 && Reached(Tables([entry] + wakeups)[j], tp, targets[tp]))
    // It returns after `k` wake-ups only once every target was seen reached
    // by then ...
    ensures o.Returned? ==>
              o.wakeups <= |wakeups| &&
              forall tp :: tp in targets ==>
                exists j :: 0 <= j <= o.wakeups && Reached(Tables([entry] + wakeups)[j], tp, targets[tp])
    // ... and by the first wake-up at which that holds; targets reached at
    // entry give a return without waiting.
    ensures entry.fault.None? ==>
              forall k :: ReachedBy(targets.Keys, targets, Tables([entry] + wakeups), k) ==> o.Returned? && o.wakeups <= k
  {
    if entry.fault.Some? then Failed(entry.fault.value)
    else
      RoundsReturnsAll(targets.Keys, targets, Tables([entry] + wakeups));
      Rounds(targets.Keys, targets, Tables([entry] + wakeups))
  }

  /** `flush` re-checking the fault at entry and after every wake-up. */
  function RoundsChecked(waiting: set<TopicPartition>, targets: map<TopicPartition, int>,
                         states: seq<State>): (o: Outcome)
    requires waiting <= targets.Keys && states != []
    // It never returns past a state with a fault.
    ensures o.Returned? ==> o.wakeups < |states| && forall j :: 0 <= j <= o.wakeups ==> states[j].fault.None?
    // It returns only once every waiting partition was seen reached in one of
    // the rounds up to its return.
    ensures o.Returned? ==>
              forall tp :: tp in waiting ==>
                exists j :: 0 <= j <= o.wakeups && Reached(states[j].latestOffsets, tp, targets[tp])
    // It fails only with a fault it saw.
    ensures o.Failed? ==> exists j :: 0 <= j < |states| && states[j].fault == Some(o.cause)
    // A fault seen while waiting ends the wait: it is still blocked only if
    // no state it saw had a fault.
    ensures o.Blocked? ==> forall j :: 0 <= j < |states| ==> states[j].fault.None?
    decreases |states|
  {
    if states[0].fault.Some? then Failed(states[0].fault.value)
    else
      var rest := Unreached(waiting, states[0].latestOffsets, targets);
      assert forall tp :: tp in waiting && tp !in rest ==> Reached(states[0].latestOffsets, tp, targets[tp]);
      if rest == {} then Returned(0)
      else if |states| == 1 then Blocked(rest)
      else
        assert forall j :: 0 < j < |states| ==> states[j] == states[1..][j - 1];
        match RoundsChecked(rest, targets, states[1..])
        case Returned(k) => Returned(k + 1)
        case o => o
  }

  /** Without faults the checked wait behaves as the unchecked one. */
  lemma {:induction false} RoundsCheckedWithoutFaults(waiting: set<TopicPartition>, targets: map<TopicPartition, int>,
                                                      states: seq<State>)
    requires waiting <= targets.Keys && states != []
    ensures (forall j :: 0 <= j < |states| ==> states[j].fault.None?) ==>
              RoundsChecked(waiting, targets, states) == Rounds(waiting, targets, Tables(states))
    decreases |states|
  {
    if (forall j :: 0 <= j < |states| ==> states[j].fault.None?) && |states| > 1 {
      var rest := Unreached(waiting, states[0].latestOffsets, targets);
      assert Tables(states)[0] == states[0].latestOffsets;
      if rest != {} {
        assert Tables(states[1..]) == Tables(states)[1..];
        assert forall j :: 0 <= j < |states| - 1 ==> states[1..][j] == states[j + 1];
        RoundsCheckedWithoutFaults(rest, targets, states[1..]);
      }
    }
  }

  /** By round `k` the wait has seen no fault, and every waiting partition
      has been seen reached in one of the rounds up to `k`. */
  ghost predicate SettledBy(waiting: set<TopicPartition>, targets: map<TopicPartition, int>,
                            states: seq<State>, k: int)
  {
    && 0 <= k < |states|
    && (forall j :: 0 <= j <= k ==> states[j].fault.None?)
    && forall tp :: tp in waiting ==>
         tp in targets && exists j :: 0 <= j <= k && Reached(states[j].latestOffsets, tp, targets[tp])
  }

  /** The checked wait still returns once its partitions are reached before
      any fault: by round `k` at the latest, whatever later states hold. */
  lemma {:induction false} RoundsCheckedReturns(waiting: set<TopicPartition>, targets: map<TopicPartition, int>,
                                                states: seq<State>, k: int)
    requires waiting <= targets.Keys && states != []
    requires SettledBy(waiting, targets, states, k)
    ensures RoundsChecked(waiting, targets, states).Returned?
    ensures RoundsChecked(waiting, targets, states).wakeups <= k
    decreases k
  {
    var rest := Unreached(waiting, states[0].latestOffsets, targets);
    if k == 0 {
      forall tp | tp in waiting
        ensures Reached(states[0].latestOffsets, tp, targets[tp])
      {
        var j :| 0 <= j <= 0 && Reached(states[j].latestOffsets, tp, targets[tp]);
      }
      UnreachedEmpty(waiting, states[0].latestOffsets, targets);
    } else if rest != {} {
      forall tp | tp in rest
        ensures tp in targets && exists j :: 0 <= j <= k - 1 && Reached(states[1..][j].latestOffsets, tp, targets[tp])
      {
        var j :| 0 <= j <= k && Reached(states[j].latestOffsets, tp, targets[tp]);
        assert states[1..][j - 1] == states[j];
      }
      assert forall j :: 0 <= j <= k - 1 ==> states[1..][j] == states[j + 1];
      RoundsCheckedReturns(rest, targets, states[1..], k - 1);
    }
  }

  /** `RoundsCheckedReturns` for every round at once. */
  lemma RoundsCheckedReturnsAll(waiting: set<TopicPartition>, targets: map<TopicPartition, int>, states: seq<State>)
    requires waiting <= targets.Keys && states != []
    ensures forall k :: SettledBy(waiting, targets, states, k) ==>
              RoundsChecked(waiting, targets, states).Returned? && RoundsChecked(waiting, targets, states).wakeups <= k
  {
    forall k | SettledBy(waiting, targets, states, k)
      ensures RoundsChecked(waiting, targets, states).Returned? && RoundsChecked(waiting, targets, states).wakeups <= k
    {
      RoundsCheckedReturns(waiting, targets, states, k);
    }
  }

  /** The fault facts of the checked wait, read back from the observed
      states to the entry state and the wake-ups. */
  lemma CheckedFaults(entry: State, targets: map<TopicPartition, int>, wakeups: seq<State>)
    ensures var o := RoundsChecked(targets.Keys, targets, [entry] + wakeups);
            && (entry.fault.Some? ==> o == Failed(entry.fault.value))
            && (o.Blocked? ==> entry.fault.None? && forall j :: 0 <= j < |wakeups| ==> wakeups[j].fault.None?)
            && (o.Returned? ==>
                  && entry.fault.None?
                  && forall j :: 0 <= j < o.wakeups && j < |wakeups| ==> wakeups[j].fault.None?)
  {
    var states := [entry] + wakeups;
    assert states[0] == entry;
    assert forall j :: 0 <= j < |wakeups| ==> states[j + 1] == wakeups[j];
  }

  /** A fault the checked wait fails with was seen at entry or after a wake-up. */
  lemma CheckedFailCause(entry: State, targets: map<TopicPartition, int>, wakeups: seq<State>)
    ensures var o := RoundsChecked(targets.Keys, targets, [entry] + wakeups);
            o.Failed? ==>
              entry.fault == Some(o.cause) || exists j :: 0 <= j < |wakeups| && wakeups[j].fault == Some(o.cause)
  {
    var states := [entry] + wakeups;
    var o := RoundsChecked(targets.Keys, targets, states);
    if o.Failed? && entry.fault != Some(o.cause) {
      var i :| 0 <= i < |states| && states[i].fault == Some(o.cause);
      assert i != 0;
      assert wakeups[i - 1] == states[i];
    }
  }

  /** Without faults the checked wait is the as-written one. */
  lemma CheckedWithoutFaults(entry: State, targets: map<TopicPartition, int>, wakeups: seq<State>)
    ensures (entry.fault.None? && forall j :: 0 <= j < |wakeups| ==> wakeups[j].fault.None?) ==>
              RoundsChecked(targets.Keys, targets, [entry] + wakeups) == Await(entry, targets, wakeups)
  {
    var states := [entry] + wakeups;
    assert forall j :: 0 < j < |states| ==> states[j] == wakeups[j - 1];
    RoundsCheckedWithoutFaults(targets.Keys, targets, states);
  }

  /** The corrected flush: a fault set while waiting fails the flush. */
  function AwaitChecked(entry: State, targets: map<TopicPartition, int>, wakeups: seq<State>): (o: Outcome)
    ensures entry.fault.Some? ==> o == Failed(entry.fault.value)
    ensures o.Blocked? ==> entry.fault.None? && forall j :: 0 <= j < |wakeups| ==> wakeups[j].fault.None?
    ensures o.Returned? ==>
              && entry.fault.None?
              && forall j :: 0 <= j < o.wakeups && j < |wakeups| ==> wakeups[j].fault.None?
    ensures (entry.fault.None? && forall j :: 0 <= j < |wakeups| ==> wakeups[j].fault.None?) ==>
              o == Await(entry, targets, wakeups)
    // It fails only with a fault it saw, at entry or after a wake-up.
    ensures o.Failed? ==> entry.fault == Some(o.cause) || exists j :: 0 <= j < |wakeups| && wakeups[j].fault == Some(o.cause)
    // It returns, by wake-up `k` at the latest, once every target was seen
    // reached before any fault was seen.
    ensures forall k :: SettledBy(targets.Keys, targets, [entry] + wakeups, k) ==> o.Returned? && o.wakeups <= k
    // ... and only once every target was seen reached by then.
    ensures o.Returned? ==>
              forall tp :: tp in targets ==>
                exists j :: 0 <= j <= o.wakeups && Reached(([entry] + wakeups)[j].latestOffsets, tp, targets[tp])
  {
    CheckedFaults(entry, targets, wakeups);
    CheckedFailCause(entry, targets, wakeups);
    RoundsCheckedReturnsAll(targets.Keys, targets, [entry] + wakeups);
    CheckedWithoutFaults(entry, targets, wakeups);
    RoundsChecked(targets.Keys, targets, [entry] + wakeups)
  }
}
