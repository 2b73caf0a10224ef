/** When the write loop runs a batch, and what has been done by then (database.go,
    processWriteBuffer). */
module WriteLoop {
  import opened Values
  import opened WriteOps

  const BATCH_THRESHOLD := 50

  /** What the write loop's selects can deliver: an operation while draining the channel or
      while idle, a tick, the channel closed, or the context cancelled. */
  datatype Event = Got(op: Operation, draining: bool) | Tick | Closed | Cancelled

  predicate Ending(e: Event) {
    e.Closed? || e.Cancelled?
  }

  predicate Ends(events: seq<Event>) {
    exists i :: 0 <= i < |events| && Ending(events[i])
  }

  /** The operations received before the loop ends, in channel order. */
  function Received(events: seq<Event>): seq<Operation> {
    if |events| == 0 then []
    else
      match events[0]
      case Got(op, _) => (if op.NilOperation? then [] else [op]) + Received(events[1..])
      case Tick => Received(events[1..])
      case _ => []
  }

  /** The batches run so far, and the operations waiting for the next. */
  datatype LoopState = LoopState(batches: seq<seq<Operation>>, waiting: seq<Operation>, running: bool)

  function RunBatch(s: LoopState): LoopState {
    s.(batches := s.batches + [s.waiting], waiting := [])
  }

  function OnEvent(s: LoopState, e: Event): LoopState {
    if !s.running then s
    else
      match e
      case Got(op, draining) =>
        if op.NilOperation? then s
        else
          var more := s.(waiting := s.waiting + [op]);
          if draining && |more.waiting| >= BATCH_THRESHOLD then RunBatch(more) else more
      case Tick => RunBatch(s)
      case _ => RunBatch(s).(running := false)
  }

  function Loop(events: seq<Event>): LoopState {
    if |events| == 0 then LoopState([], [], true)
    else OnEvent(Loop(events[..|events| - 1]), events[|events| - 1])
  }

  function AllOf(batches: seq<seq<Operation>>): seq<Operation> {
    if |batches| == 0 then [] else AllOf(batches[..|batches| - 1]) + batches[|batches| - 1]
  }

  /** How many of the batches change anything. */
  function Changing(data: Data, batches: seq<seq<Operation>>): nat {
    if |batches| == 0 then 0
    else
      var init, last := batches[..|batches| - 1], batches[|batches| - 1];
      Changing(data, init) + if Successes(Effects(data, AllOf(init)), last) > 0 then 1 else 0
  }

  // What is received.

  /** One more event adds its operation, unless the loop has ended or the operation is nil. */
  lemma {:induction false} ReceivedGrows(events: seq<Event>, e: Event)
    ensures Received(events + [e]) ==
            Received(events) + if !Ends(events) && e.Got? && !e.op.NilOperation? then [e.op] else []
    ensures Ends(events + [e]) <==> Ends(events) || Ending(e)
  {
    EndsGrows(events, e);
    if |events| == 0 {
      assert [] + [e] == [e] && [e][1..] == [];
    } else {
      var rest := events[1..];
      assert (events + [e])[1..] == rest + [e];
      ReceivedGrows(rest, e);
      assert Ends(events) <==> Ending(events[0]) || Ends(rest) by {
        assert forall i :: 0 <= i < |rest| ==> rest[i] == events[i + 1];
        if i :| 0 <= i < |events| && Ending(events[i]) {
          if i > 0 { assert Ending(rest[i - 1]); }
        }
      }
    }
  }

  lemma EndsGrows(events: seq<Event>, e: Event)
    ensures Ends(events + [e]) <==> Ends(events) || Ending(e)
  {
    var more := events + [e];
    assert more[|events|] == e && forall i :: 0 <= i < |events| ==> more[i] == events[i];
  }

  // What the loop makes of it.

  lemma OneMore(events: seq<Event>, e: Event)
    ensures Loop(events + [e]) == OnEvent(Loop(events), e)
  {
    assert (events + [e])[..|events|] == events;
  }

  lemma OneMoreBatch(batches: seq<seq<Operation>>, batch: seq<Operation>)
    ensures AllOf(batches + [batch]) == AllOf(batches) + batch
  {
    assert (batches + [batch])[..|batches|] == batches;
  }

  /** What one event adds to the operations of the batches and those waiting. */
  function Adds(s: LoopState, e: Event): seq<Operation> {
    if s.running && e.Got? && !e.op.NilOperation? then [e.op] else []
  }

  lemma EventKeepsAll(s: LoopState, e: Event)
    ensures var n := OnEvent(s, e);
            AllOf(n.batches) + n.waiting == AllOf(s.batches) + s.waiting + Adds(s, e)
  {
    OneMoreBatch(s.batches, s.waiting);
    OneMoreBatch(s.batches, s.waiting + Adds(s, e));
    hide AllOf;
    var all := AllOf(s.batches);
    assert all + (s.waiting + Adds(s, e)) + [] == all + (s.waiting + Adds(s, e)) == all + s.waiting + Adds(s, e);
  }

  /** Every operation received is in one batch or waiting, once and in order; and when the
      loop has ended, none is waiting. */
  lemma {:induction false} LoopKeepsAll(events: seq<Event>)
    ensures var s := Loop(events);
            && AllOf(s.batches) + s.waiting == Received(events)
            && (s.running <==> !Ends(events)) && (!s.running ==> s.waiting == [])
  {
    if |events| > 0 {
      var init, e := events[..|events| - 1], events[|events| - 1];
      assert events == init + [e];
      LoopKeepsAll(init);
      ReceivedGrows(init, e);
      hide Received, Ends, AllOf;
      EventKeepsAll(Loop(init), e);
    }
  }

  /** A batch is run exactly when the loop is running and a tick comes, or the end, or while
      draining an operation that makes the threshold full; after a tick or the end nothing is
      waiting, and while draining always less than the threshold. */
  lemma BatchRunsIff(events: seq<Event>, e: Event)
    ensures var s, n := Loop(events), Loop(events + [e]);
            var fills := e.Got? && !e.op.NilOperation? && e.draining && |s.waiting| + 1 >= 50;
            && (n.batches != s.batches <==> !Ends(events) && (e.Tick? || e.Closed? || e.Cancelled? || fills))
            && (e.Tick? || e.Closed? || e.Cancelled? ==> n.waiting == [])
            && (e.Got? && !e.op.NilOperation? && e.draining ==> |n.waiting| < 50)
  {
    LoopKeepsAll(events);
    OneMore(events, e);
    assert |Loop(events).batches + [Loop(events).waiting]| != |Loop(events).batches|;
  }

  lemma {:induction false} BatchesGrow(events: seq<Event>, i: nat)
    requires i <= |events|
    ensures AllOf(Loop(events[..i]).batches) <= AllOf(Loop(events).batches)
  {
    if i == |events| {
      assert events[..i] == events;
    } else {
      var init := events[..|events| - 1];
      assert init[..i] == events[..i];
      BatchesGrow(init, i);
      hide AllOf;
      var s := Loop(init);
      OneMoreBatch(s.batches, s.waiting);
      if events[|events| - 1].Got? { OneMoreBatch(s.batches, s.waiting + [events[|events| - 1].op]); }
    }
  }

  lemma TickDoes(events: seq<Event>)
    ensures Received(events) <= AllOf(Loop(events + [Tick]).batches)
  {
    LoopKeepsAll(events + [Tick]);
    BatchRunsIff(events, Tick);
    ReceivedGrows(events, Tick);
    hide Received, AllOf, Loop;
    var s := Loop(events + [Tick]);
    assert AllOf(s.batches) + [] == AllOf(s.batches) && Received(events) + [] == Received(events);
  }

  /** Whatever was received before a tick has been done ever since. */
  lemma DoneByTick(events: seq<Event>, i: nat)
    requires i < |events| && events[i].Tick?
    ensures Received(events[..i]) <= AllOf(Loop(events).batches)
  {
    TickDoes(events[..i]);
    assert events[..i + 1] == events[..i] + [Tick];
    BatchesGrow(events, i + 1);
    hide *;
    PrefixOfPrefix(Received(events[..i]), AllOf(Loop(events[..i] + [Tick]).batches), AllOf(Loop(events).batches));
  }

  lemma PrefixOfPrefix(a: seq<Operation>, b: seq<Operation>, c: seq<Operation>)
    requires a <= b <= c
    ensures a <= c
  {
  }

  lemma ChangingGrows(data: Data, batches: seq<seq<Operation>>, batch: seq<Operation>)
    ensures Changing(data, batches + [batch]) ==
            Changing(data, batches) + if Successes(Effects(data, AllOf(batches)), batch) > 0 then 1 else 0
  {
    assert (batches + [batch])[..|batches|] == batches;
  }

  lemma {:induction false} StoppedStays(events: seq<Event>, i: nat)
    requires i <= |events| && !Loop(events[..i]).running
    ensures Loop(events) == Loop(events[..i])
  {
    if i == |events| {
      assert events[..i] == events;
    } else {
      var init := events[..|events| - 1];
      assert init[..i] == events[..i];
      StoppedStays(init, i);
    }
  }

  /** The last thing that came is an operation, received while draining. */
  predicate LastWhileDraining(events: seq<Event>) {
    |events| > 0 && var e := events[|events| - 1]; e.Got? && e.draining && !e.op.NilOperation?
  }

  /** Where the loop is after i events. */
  ghost predicate LoopAt(events: seq<Event>, i: nat, batches: seq<seq<Operation>>, waiting: seq<Operation>,
                         running: bool) {
    && i <= |events|
    && Loop(events[..i]) == LoopState(batches, waiting, running)
    && (!running ==> Loop(events) == Loop(events[..i]))
  }

  lemma LoopAtNext(events: seq<Event>, i: nat, batches: seq<seq<Operation>>, waiting: seq<Operation>)
    requires i < |events| && LoopAt(events, i, batches, waiting, true)
    ensures var e := events[i];
            var more := if e.Got? && !e.op.NilOperation? then waiting + [e.op] else waiting;
            var runNow := !e.Got? || (!e.op.NilOperation? && e.draining && |more| >= BATCH_THRESHOLD);
            LoopAt(events, i + 1, if runNow then batches + [more] else batches, if runNow then [] else more, !Ending(e))
  {
    assert events[..i + 1] == events[..i] + [events[i]];
    OneMore(events[..i], events[i]);
    if Ending(events[i]) { StoppedStays(events, i + 1); }
  }

  lemma LoopAtEnd(events: seq<Event>, i: nat, batches: seq<seq<Operation>>, waiting: seq<Operation>, running: bool)
    requires LoopAt(events, i, batches, waiting, running) && (running ==> i == |events|)
    ensures Loop(events).batches == batches && Loop(events).waiting == waiting
  {
    assert i == |events| ==> events[..i] == events;
  }

  /** The laws of the loop together. */
  lemma LoopMeans(events: seq<Event>)
    ensures var done, left := AllOf(Loop(events).batches), Loop(events).waiting;
            && done + left == Received(events)
            && (Ends(events) || (|events| > 0 && events[|events| - 1].Tick?) ==> left == [])
            && (LastWhileDraining(events) ==> |left| < 50)
            && forall i :: 0 <= i < |events| && events[i].Tick? ==> Received(events[..i]) <= done
  {
    LoopKeepsAll(events);
    if |events| > 0 {
      var init, e := events[..|events| - 1], events[|events| - 1];
      assert events == init + [e];
      BatchRunsIff(init, e);
    }
    hide Received, Ends, AllOf, Loop;
    forall i | 0 <= i < |events| && events[i].Tick?
      ensures Received(events[..i]) <= AllOf(Loop(events).batches)
    {
      DoneByTick(events, i);
    }
  }
}
