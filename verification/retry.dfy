/** Storing one record with bounded retry. */
module Retry {
  import opened Records
  import opened ConverterRegistry

  /** The number of attempts made before a retryable failure becomes the
      writer's fault. */
  const NumRetries: nat := 3

  /** The storage gateway's answer to one store call: the document was stored,
      or the call threw. */
  datatype GatewayResult = Stored | Failed(error: string)

  /** The account of processing one record: how many attempts were made, the
      store calls the gateway received (destination and document), and the
      fault recorded, which is absent exactly when one of the calls succeeded. */
  datatype StoreReport = StoreReport(
    attempts: nat,
    calls: seq<(string, Document)>,
    fault: Option<Fault>)
  {
    predicate Succeeded() {
      fault.None?
    }
  }

  /** One pass through the body of `store`'s try block: make the document,
      then hand it to the gateway. It reports the store call made, if any,
      and the exception raised, if any. */
  datatype Attempt = Attempt(calls: seq<(string, Document)>, fault: Option<Fault>)

  function AttemptStore(reg: Registry, r: Record, answer: GatewayResult): (a: Attempt)
    requires reg.Valid()
    ensures GetDoc(reg, r).Err? ==> a == Attempt([], Some(GetDoc(reg, r).fault))
    ensures GetDoc(reg, r).Ok? ==> a.calls == [(r.topic, GetDoc(reg, r).value)]
    ensures GetDoc(reg, r).Ok? ==> (a.fault.None? <==> answer.Stored?)
    ensures GetDoc(reg, r).Ok? && answer.Failed? ==> a.fault == Some(StoreFailed(answer.error))
  {
    match GetDoc(reg, r)
    case Err(f) => Attempt([], Some(f))
    case Ok(doc) =>
      match answer
      case Stored => Attempt([(r.topic, doc)], None)
      case Failed(e) => Attempt([(r.topic, doc)], Some(StoreFailed(e)))
  }

  /** `store(record, tries)`, the Java method's self-recursive form: the document is
      made afresh on every attempt, a non-retryable fault ends at once, and a
      retryable one is retried while fewer than `NumRetries` attempts have
      been made. The gateway answers attempt k with `gateway(k)`. */
  function StoreFrom(reg: Registry, r: Record, gateway: nat -> GatewayResult, tries: nat): (rep: StoreReport)
    requires reg.Valid() && tries < NumRetries
    ensures 1 <= rep.attempts <= NumRetries - tries
    ensures |rep.calls| <= rep.attempts
    decreases NumRetries - tries
  {
    var a := AttemptStore(reg, r, gateway(tries));
    match a.fault
    case None => StoreReport(1, a.calls, None)
    case Some(f) =>
      if f.Retryable() && tries + 1 < NumRetries then
        Resume(1, a.calls, StoreFrom(reg, r, gateway, tries + 1))
      else
        StoreReport(1, a.calls, Some(f))
  }

  /** The report of attempts `tries` onward, preceded by the `tries` attempts
      already made and the store calls they made. */
  function Resume(tries: nat, calls: seq<(string, Document)>, rest: StoreReport): StoreReport {
    rest.(attempts := tries + rest.attempts, calls := calls + rest.calls)
  }

  /** From attempt `tries` on, a convertible record is sent to the gateway on
      every attempt until the first success; without one, the attempts run out
      and the last store error becomes the fault. */
  lemma {:induction false} StoreFromConvertible(reg: Registry, r: Record, gateway: nat -> GatewayResult, tries: nat)
    requires reg.Valid() && tries < NumRetries && GetDoc(reg, r).Ok?
    ensures var rep := StoreFrom(reg, r, gateway, tries);
            && |rep.calls| == rep.attempts
            && (forall i :: 0 <= i < |rep.calls| ==> rep.calls[i] == (r.topic, GetDoc(reg, r).value))
            && (rep.Succeeded() <==> exists k :: tries <= k < NumRetries && gateway(k).Stored?)
            && (rep.Succeeded() ==> gateway(tries + rep.attempts - 1).Stored?)
            && (forall k :: tries <= k < tries + rep.attempts - 1 ==> gateway(k).Failed?)
            && (!rep.Succeeded() ==>
                  tries + rep.attempts == NumRetries
                  && rep.fault == Some(StoreFailed(gateway(NumRetries - 1).error)))
    decreases NumRetries - tries
  {
    if gateway(tries).Failed? && tries + 1 < NumRetries {
      StoreFromConvertible(reg, r, gateway, tries + 1);
      var rest := StoreFrom(reg, r, gateway, tries + 1);
      assert StoreFrom(reg, r, gateway, tries).calls == [(r.topic, GetDoc(reg, r).value)] + rest.calls;
    }
  }

  /** From attempt `tries` on, a record without a value schema fails every
      attempt before reaching the gateway. */
  lemma {:induction false} StoreFromNullSchema(reg: Registry, r: Record, gateway: nat -> GatewayResult, tries: nat)
    requires reg.Valid() && tries < NumRetries && r.valueSchema.None?
    ensures StoreFrom(reg, r, gateway, tries) == StoreReport(NumRetries - tries, [], Some(NullSchema))
    decreases NumRetries - tries
  {
    if tries + 1 < NumRetries {
      StoreFromNullSchema(reg, r, gateway, tries + 1);
    }
  }

  /** Processing one record, `store(record, 0)`. */
  function StoreRecord(reg: Registry, r: Record, gateway: nat -> GatewayResult): (rep: StoreReport)
    requires reg.Valid()
    // An unsupported or unconvertible record: one attempt, no store call, fault set.
    ensures GetDoc(reg, r).Err? && !GetDoc(reg, r).fault.Retryable() ==>
              rep == StoreReport(1, [], Some(GetDoc(reg, r).fault))
    // A record without a value schema: every attempt fails before the store call.
    ensures r.valueSchema.None? ==> rep == StoreReport(NumRetries, [], Some(NullSchema))
    // A convertible record: one store call per attempt, at most `NumRetries`.
    ensures GetDoc(reg, r).Ok? ==>
              && 1 <= rep.attempts <= NumRetries
              && |rep.calls| == rep.attempts
              && (forall i :: 0 <= i < |rep.calls| ==> rep.calls[i] == (r.topic, GetDoc(reg, r).value))
    // It is stored, and no fault recorded, exactly when one of the allowed
    // attempts succeeds; the last attempt made is then the first success.
    ensures GetDoc(reg, r).Ok? ==>
              && (rep.Succeeded() <==> exists k :: 0 <= k < NumRetries && gateway(k).Stored?)
              && (rep.Succeeded() ==>
                    && gateway(rep.attempts - 1).Stored?
                    && forall k :: 0 <= k < rep.attempts - 1 ==> gateway(k).Failed?)
    // Otherwise exactly `NumRetries` attempts, and the last error is the fault.
    ensures GetDoc(reg, r).Ok? && !rep.Succeeded() ==>
              rep.attempts == NumRetries && rep.fault == Some(StoreFailed(gateway(NumRetries - 1).error))
  {
    var rep := StoreFrom(reg, r, gateway, 0);
    if GetDoc(reg, r).Ok? then
      StoreFromConvertible(reg, r, gateway, 0); rep
    else if r.valueSchema.None? then
      StoreFromNullSchema(reg, r, gateway, 0); rep
    else
      rep
  }

  /** One unfolding of the recursion: the attempt at `tries`, then either
      the end or the attempts after it. */
  lemma StoreFromUnfold(reg: Registry, r: Record, gateway: nat -> GatewayResult, tries: nat)
    requires reg.Valid() && tries < NumRetries
    ensures var a := AttemptStore(reg, r, gateway(tries));
            StoreFrom(reg, r, gateway, tries) ==
              if a.fault.Some? && a.fault.value.Retryable() && tries + 1 < NumRetries
              then Resume(1, a.calls, StoreFrom(reg, r, gateway, tries + 1))
              else StoreReport(1, a.calls, a.fault)
  {
  }

  /** Resuming twice is resuming once with both prefixes. */
  lemma ResumeTwice(tries: nat, calls: seq<(string, Document)>, more: seq<(string, Document)>, rest: StoreReport)
    ensures Resume(tries, calls, Resume(1, more, rest)) == Resume(tries + 1, calls + more, rest)
  {
    assert calls + (more + rest.calls) == (calls + more) + rest.calls;
  }

  /** The retry written as a loop with an explicit attempt counter; it makes
      the same attempts and calls as the recursive form. */
  method Store(reg: Registry, r: Record, gateway: nat -> GatewayResult) returns (rep: StoreReport)
    requires reg.Valid()
    ensures rep == StoreRecord(reg, r, gateway)
  {
    ghost var whole := StoreFrom(reg, r, gateway, 0);
    var tries := 0;
    var calls: seq<(string, Document)> := [];
    while true
      invariant 0 <= tries < NumRetries
      invariant whole == Resume(tries, calls, StoreFrom(reg, r, gateway, tries))
      decreases NumRetries - tries
    {
      var attempt := AttemptStore(reg, r, gateway(tries));
      StoreFromUnfold(reg, r, gateway, tries);
      ghost var before := calls;
      calls := calls + attempt.calls;
      match attempt.fault {
        case None =>
          rep := StoreReport(tries + 1, calls, None);
          break;
        case Some(f) =>
          if !f.Retryable() || tries + 1 == NumRetries {
            rep := StoreReport(tries + 1, calls, Some(f));
            break;
          }
      }
      ResumeTwice(tries, before, attempt.calls, StoreFrom(reg, r, gateway, tries + 1));
      tries := tries + 1;
    }
    assert rep == whole;
  }
}
