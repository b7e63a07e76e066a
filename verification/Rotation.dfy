// The round-robin rotation: whose turn it is, and which context each terminal waits in.
module Rotation {
  import opened Bytes
  import opened Processes

  // The contexts handed in by the ticks of a run.
  function TickContexts(es: seq<Event>): seq<Context>
  {
    if es == [] then []
    else (if es[0].Ticked? then [es[0].ctx] else []) + TickContexts(es[1..])
  }

  // The part of the state the rotation is about.
  datatype Rota = Rota(running: nat, saved: seq<Context>)
  {
    predicate Valid() { running < TERMINALS == |saved| }

    // The context that waits d turns from now.
    function Waiting(d: nat): Context
      requires Valid()
    {
      saved[(running + d) % TERMINALS]
    }
  }

  // Before the first tick it is as if the last terminal had been running.
  function RotaOf(s: Sys): (r: Rota)
    requires s.Shape()
    ensures r.Valid()
  {
    Rota(if s.running < 0 then TERMINALS - 1 else s.running, s.saved)
  }

  function Rotate(r: Rota, ctx: Context): (r': Rota)
    requires r.Valid()
    ensures r'.Valid()
  {
    Rota(Next(r.running), r.saved[r.running := ctx])
  }

  function RotateAll(r: Rota, cs: seq<Context>): (r': Rota)
    requires r.Valid()
    ensures r'.Valid()
    decreases |cs|
  {
    if cs == [] then r else RotateAll(Rotate(r, cs[0]), cs[1..])
  }

  lemma StepRotates(s: Sys, e: Event)
    requires Enabled(s, e)
    ensures Step(s, e).Inv()
    ensures RotaOf(Step(s, e)) == if e.Ticked? then Rotate(RotaOf(s), e.ctx) else RotaOf(s)
  {
    StepKeepsInv(s, e);
    if e.Halted? && |s.stacks[s.running]| == 1 {
      RootRestarts(s);
    }
  }

  // Only ticks rotate, whatever processes do in between, and the boot ticks rotate like all others.
  lemma {:induction false} RunRotates(s: Sys, es: seq<Event>)
    requires s.Inv() && AllEnabled(s, es)
    ensures RotaOf(Run(s, es)) == RotateAll(RotaOf(s), TickContexts(es))
    decreases |es|
  {
    if es != [] {
      var e, rest := es[0], es[1..];
      StepRotates(s, e);
      RunRotates(Step(s, e), rest);
      assert TickContexts(es) == (if e.Ticked? then [e.ctx] else []) + TickContexts(rest);
      if e.Ticked? {
        assert TickContexts(es)[1..] == TickContexts(rest);
      } else {
        assert TickContexts(es) == TickContexts(rest);
      }
    }
  }

  // n ticks move the processor n terminals on.
  lemma {:induction false} Turns(r: Rota, cs: seq<Context>)
    requires r.Valid()
    ensures RotateAll(r, cs).running == (r.running + |cs|) % TERMINALS
    decreases |cs|
  {
    if cs != [] {
      Turns(Rotate(r, cs[0]), cs[1..]);
      ShiftTurn(r.running, |cs| - 1);
    }
  }

  lemma ShiftTurn(a: nat, n: nat)
    ensures ((a + 1) % TERMINALS + n) % TERMINALS == (a + 1 + n) % TERMINALS
  {
  }

  // Then the terminal that has just been preempted waits longest, and the one whose turn is next was
  // last preempted two ticks ago, each with the context captured then.
  lemma {:induction false} RoundRobin(r: Rota, cs: seq<Context>)
    requires r.Valid()
    ensures var r', n := RotateAll(r, cs), |cs|;
            && r'.Waiting(2) == (if n >= 1 then cs[n - 1] else r.Waiting(2))
            && r'.Waiting(1) == (if n >= 2 then cs[n - 2] else r.Waiting(n + 1))
    decreases |cs|
  {
    if cs != [] {
      RotateWaits(r, cs[0]);
      RoundRobin(Rotate(r, cs[0]), cs[1..]);
    }
  }

  lemma RotateWaits(r: Rota, ctx: Context)
    requires r.Valid()
    ensures Rotate(r, ctx).Waiting(2) == ctx && Rotate(r, ctx).Waiting(1) == r.Waiting(2)
  {
  }

  lemma TickTakesNext(s: Sys, ctx: Context)
    requires s.Inv() && s.AllUp()
    ensures Tick(s, ctx).1 == Some(RotaOf(s).Waiting(1))
  {
  }

  // So in every run n ticks move the processor n terminals on: between two turns of a terminal each of
  // the others gets exactly one.
  lemma TicksMoveOn(s: Sys, es: seq<Event>)
    requires s.Inv() && AllEnabled(s, es)
    ensures RotaOf(Run(s, es)).running == (RotaOf(s).running + |TickContexts(es)|) % TERMINALS
  {
    var r, cs := RotaOf(s), TickContexts(es);
    assert RotateAll(r, cs).running == (r.running + |cs|) % TERMINALS by {
      Turns(r, cs);
    }
    RunRotates(s, es);
  }

  // And each tick resumes the terminal preempted two ticks before it, in exactly the context captured then.
  lemma TickResumes(s: Sys, es: seq<Event>, ctx: Context)
    requires s.Inv() && AllEnabled(s, es) && Run(s, es).AllUp() && |TickContexts(es)| >= 2
    ensures Tick(Run(s, es), ctx).1 == Some(TickContexts(es)[|TickContexts(es)| - 2])
  {
    TickTakesNext(Run(s, es), ctx);
    RunRotates(s, es);
    RoundRobin(RotaOf(s), TickContexts(es));
  }

  // It takes a tick for every shell that is not up yet.
  lemma {:induction false} BootTakesTicks(s: Sys, es: seq<Event>)
    requires s.Inv() && AllEnabled(s, es) && !s.AllUp() && Run(s, es).AllUp()
    ensures |TickContexts(es)| >= TERMINALS - 1 - s.running
    decreases |es|
  {
    var e, rest := es[0], es[1..];
    StepKeepsInv(s, e);
    assert Step(s, e).running == s.running + 1;
    if !Step(s, e).AllUp() {
      BootTakesTicks(Step(s, e), rest);
    }
  }

  // From the boot on: once all shells are up, every tick resumes the context of two ticks before, the
  // first ones included, whose contexts were saved while the shells came up.
  lemma EveryTickResumes(es: seq<Event>, ctx: Context)
    requires AllEnabled(BOOT, es) && Run(BOOT, es).AllUp()
    ensures |TickContexts(es)| >= TERMINALS
    ensures Run(BOOT, es).running == (|TickContexts(es)| - 1) % TERMINALS
    ensures Tick(Run(BOOT, es), ctx).1 == Some(TickContexts(es)[|TickContexts(es)| - 2])
  {
    BootTakesTicks(BOOT, es);
    TicksMoveOn(BOOT, es);
    TickResumes(BOOT, es, ctx);
  }
}
