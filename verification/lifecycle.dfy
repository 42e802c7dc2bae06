/** The writer's lifecycle: construction behind the connection probe, the
    worker loop guarded by the stop flag, and `close`. */
module Lifecycle {
  import opened Records
  import opened ConverterRegistry
  import opened WriterState

  /** Where the worker thread is: not started, inside the loop, or past it. */
  datatype Phase = Created | Running | Exited

  /** The writer: its registry, the shared state, the stop flag, the worker's
      phase, and how many times it has closed the gateway. */
  datatype Writer = Writer(
    registry: Registry,
    state: State,
    stopping: bool,
    phase: Phase,
    gatewayCloses: nat)
  {
    /** The gateway is closed once when the loop exits and never otherwise,
        and a running loop has not yet seen the stop flag. */
    ghost predicate Valid() {
      && registry.Valid()
      && gatewayCloses == (if phase == Exited then 1 else 0)
      && (phase == Running ==> !stopping)
    }
  }

  datatype Construction = Constructed(writer: Writer) | ConnectFailed(gatewayCloses: nat)

  /** The constructor: when the connection probe fails the gateway is closed
      and construction fails before any converter is registered; otherwise
      the registry is built and the state starts empty. */
  function Construct(connected: bool, converters: seq<Converter>): (c: Construction)
    ensures c.Constructed? <==> connected
    ensures c.ConnectFailed? ==> c.gatewayCloses == 1
    ensures c.Constructed? ==>
              && c.writer.Valid()
              && c.writer.phase == Created && !c.writer.stopping
              && c.writer.state == Initial
              && c.writer.registry.converters == converters
              && c.writer.registry.mapping == BuildMapping(converters)
  {
    if !connected then ConnectFailed(1)
    else Constructed(Writer(Registry(converters, BuildMapping(converters)), Initial, false, Created, 0))
  }

  /** Leaving the loop: the gateway is closed. */
  function Exit(w: Writer): Writer {
    w.(phase := Exited, gatewayCloses := w.gatewayCloses + 1)
  }

  /** Starting the worker: the loop guard is checked before anything is
      taken, so a writer closed before it started exits at once. */
  function Start(w: Writer): (w': Writer)
    requires w.Valid() && w.phase == Created
    ensures w'.Valid() && w'.state == w.state && w'.stopping == w.stopping
    ensures w'.registry == w.registry
    ensures w'.phase == (if w.stopping then Exited else Running)
  {
    if w.stopping then Exit(w) else w.(phase := Running)
  }

  /** `close`: sets the stop flag and interrupts the worker, which leaves the
      loop at its next guard check; it neither flushes nor waits. */
  function Close(w: Writer): (w': Writer)
    requires w.Valid()
    ensures w'.Valid() && w'.stopping && w'.state == w.state
    ensures w'.registry == w.registry
    ensures w'.phase == (if w.phase == Running then Exited else w.phase)
  {
    var flagged := w.(stopping := true);
    if w.phase == Running then Exit(flagged) else flagged
  }

  /** What the worker observes: it takes a record, is interrupted while
      waiting for one, or is asked to close. */
  datatype Event = Take(d: Delivery) | Interrupted | CloseRequested

  /** One event. A running worker processes a taken record; an interrupt
      while idle is ignored; a record is never taken outside the loop. */
  function OnEvent(w: Writer, e: Event): (w': Writer)
    requires w.Valid()
    ensures w'.Valid()
  {
    match e
    case Take(d) => if w.phase == Running then w.(state := Step(w.registry, w.state, d)) else w
    case Interrupted => w
    case CloseRequested => Close(w)
  }

  /** The writer after a sequence of events. */
  function RunEvents(w: Writer, events: seq<Event>): (w': Writer)
    requires w.Valid()
    ensures w'.Valid()
    decreases |events|
  {
    if events == [] then w else RunEvents(OnEvent(w, events[0]), events[1..])
  }

  /** The records taken before the first close request. */
  function TakenBeforeClose(events: seq<Event>): seq<Delivery>
    decreases |events|
  {
    if events == [] || events[0].CloseRequested? then []
    else if events[0].Take? then [events[0].d] + TakenBeforeClose(events[1..])
    else TakenBeforeClose(events[1..])
  }

  /** Once the stop flag is set no record is taken: the state, the flag and
      the number of gateway closes no longer change. */
  lemma {:induction false} NothingTakenAfterStop(w: Writer, events: seq<Event>)
    requires w.Valid() && w.stopping
    ensures RunEvents(w, events).state == w.state
    ensures RunEvents(w, events).stopping
    ensures RunEvents(w, events).gatewayCloses == w.gatewayCloses
    decreases |events|
  {
    if events != [] {
      NothingTakenAfterStop(OnEvent(w, events[0]), events[1..]);
    }
  }

  /** A running worker processes, in order, exactly the records taken before
      the first close request, and has exited (closing the gateway once) if
      and only if a close was requested. */
  lemma {:induction false} RunProcessesUntilClose(w: Writer, events: seq<Event>)
    requires w.Valid() && w.phase == Running
    ensures RunEvents(w, events).state == ProcessAll(w.registry, w.state, TakenBeforeClose(events))
    ensures RunEvents(w, events).phase == Exited <==> exists i :: 0 <= i < |events| && events[i].CloseRequested?
    ensures RunEvents(w, events).gatewayCloses <= 1
    decreases |events|
  {
    if events != [] {
      var w1 := OnEvent(w, events[0]);
      match events[0]
      case Take(d) =>
        RunProcessesUntilClose(w1, events[1..]);
        ProcessAllFront(w.registry, w.state, TakenBeforeClose(events));
        assert forall i :: 0 < i < |events| ==> events[i] == events[1..][i - 1];
      case Interrupted =>
        RunProcessesUntilClose(w1, events[1..]);
        assert forall i :: 0 < i < |events| ==> events[i] == events[1..][i - 1];
      case CloseRequested =>
        NothingTakenAfterStop(w1, events[1..]);
        ExitedStaysExited(w1, events[1..]);
    }
  }

  /** A loop that has exited stays exited. */
  lemma {:induction false} ExitedStaysExited(w: Writer, events: seq<Event>)
    requires w.Valid() && w.phase == Exited
    ensures RunEvents(w, events).phase == Exited
    decreases |events|
  {
    if events != [] {
      ExitedStaysExited(OnEvent(w, events[0]), events[1..]);
    }
  }

  /** The worker's `run` loop: `while (!stopping)`, take a record, store it,
      record its offset; on leaving, close the gateway. */
  method Run(w: Writer, events: seq<Event>) returns (w': Writer)
    requires w.Valid() && w.phase == Running
    ensures w' == RunEvents(w, events)
  {
    var state := w.state;
    var stopping := false;
    var i := 0;
    while !stopping && i < |events|
      invariant 0 <= i <= |events|
      invariant !stopping ==> RunEvents(w, events) == RunEvents(w.(state := state), events[i..])
      invariant stopping ==> RunEvents(w, events) == RunEvents(Exit(w.(state := state, stopping := true)), events[i..])
    {
      assert events[i..][1..] == events[i + 1..];
      match events[i] {
        case Take(d) =>
          state := Step(w.registry, state, d);
        case Interrupted =>
        case CloseRequested =>
          stopping := true;
      }
      i := i + 1;
    }
    if stopping {
      w' := Exit(w.(state := state, stopping := true));
      ExitedIsFinal(w', events[i..]);
    } else {
      assert events[i..] == [];
      w' := w.(state := state);
    }
  }

  /** After the loop has exited, further events change nothing. */
  lemma {:induction false} ExitedIsFinal(w: Writer, events: seq<Event>)
    requires w.Valid() && w.phase == Exited && w.stopping
    ensures RunEvents(w, events) == w
    decreases |events|
  {
    if events != [] {
      assert OnEvent(w, events[0]) == w;
      ExitedIsFinal(w, events[1..]);
    }
  }
}
