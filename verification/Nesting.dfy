// Execute and halt bracket each other, on every terminal, whatever the other two do.
module Nesting {
  import opened Bytes
  import opened Processes

  // Terminal k's stack never gets lower than n.
  ghost predicate StaysAbove(s: Sys, es: seq<Event>, k: int, n: nat)
    requires AllEnabled(s, es) && s.Inv() && 0 <= k < TERMINALS
    decreases |es|
  {
    && |s.stacks[k]| >= n
    && (es != [] ==> (StepKeepsInv(s, es[0]); StaysAbove(Step(s, es[0]), es[1..], k, n)))
  }

  lemma StepKeepsPrefix(s: Sys, e: Event, k: int, n: nat)
    requires Enabled(s, e) && 0 <= k < TERMINALS
    ensures Step(s, e).Inv()
    ensures n <= |s.stacks[k]| && n <= |Step(s, e).stacks[k]| ==> Step(s, e).stacks[k][..n] == s.stacks[k][..n]
  {
    StepKeepsInv(s, e);
    if e.Halted? && |s.stacks[s.running]| == 1 {
      RootRestarts(s);
    }
  }

  lemma {:induction false} PrefixKept(s: Sys, es: seq<Event>, k: int, n: nat)
    requires AllEnabled(s, es) && s.Inv() && 0 <= k < TERMINALS && StaysAbove(s, es, k, n)
    ensures n <= |Run(s, es).stacks[k]| && Run(s, es).stacks[k][..n] == s.stacks[k][..n]
    decreases |es|
  {
    if es != [] {
      StepKeepsInv(s, es[0]);
      StepKeepsPrefix(s, es[0], k, n);
      PrefixKept(Step(s, es[0]), es[1..], k, n);
    }
  }

  // Stack discipline: whatever happens between an execute and the halt that brings its terminal's
  // stack back down, that halt returns to the process that executed, in the context it executed from.
  lemma ExecuteHaltBracket(s: Sys, ctx: Context, mid: seq<Event>)
    requires Enabled(s, Executed(ctx)) && Execute(s, ctx).1 != -1
    requires var s1 := Execute(s, ctx).0;
             && s1.Inv() && s1.AllUp() && AllEnabled(s1, mid)
             && StaysAbove(s1, mid, s.running, |s.stacks[s.running]| + 1)
             && Run(s1, mid).running == s.running
             && |Run(s1, mid).stacks[s.running]| == |s.stacks[s.running]| + 1
    ensures var s2 := Run(Execute(s, ctx).0, mid);
            && Enabled(s2, Halted)
            && Halt(s2).1 == Some(ctx)
            && Halt(s2).0.stacks[s.running] == s.stacks[s.running]
            && Halt(s2).0.Inv() && Halt(s2).0.Top() == s.Top()
  {
    var k := s.running;
    var n := |s.stacks[k]|;
    var s1 := Execute(s, ctx).0;
    var s2 := Run(s1, mid);
    assert s2.Inv() && s2.AllUp() && s2.stacks[k] == s1.stacks[k] by {
      PrefixKept(s1, mid, k, n + 1);
      assert s2.stacks[k] == s2.stacks[k][..n + 1] && s1.stacks[k] == s1.stacks[k][..n + 1];
    }
    HaltPops(s, s2, ctx);
  }

  // The process on top goes.
  lemma HaltPops(s: Sys, s2: Sys, ctx: Context)
    requires s.Inv() && s.AllUp() && Execute(s, ctx).1 != -1
    requires s2.Inv() && s2.AllUp() && s2.running == s.running && s2.stacks[s.running] == Execute(s, ctx).0.stacks[s.running]
    ensures Enabled(s2, Halted) && Halt(s2).1 == Some(ctx) && Halt(s2).0.stacks[s.running] == s.stacks[s.running]
    ensures Halt(s2).0.Inv() && Halt(s2).0.Top() == s.Top()
  {
    var st := s.stacks[s.running];
    assert s2.stacks[s.running][..|st|] == st;
    HaltKeepsInv(s2);
  }

  // If terminal k's stack is at least n high at the end of a run, it has been so all along, or there is
  // an execute on k that brought it to that height for good.
  lemma {:induction false} LastRise(s: Sys, es: seq<Event>, k: int, n: nat)
    returns (pre: seq<Event>, ctx: Context, mid: seq<Event>)
    requires s.Inv() && AllEnabled(s, es) && 0 <= k < TERMINALS && 1 < n <= |Run(s, es).stacks[k]|
    ensures StaysAbove(s, es, k, n) || (es == pre + [Executed(ctx)] + mid && RisesFor(s, pre, ctx, mid, k, n))
    decreases |es|
  {
    pre, ctx, mid := [], Context(0, 0), [];
    if es != [] {
      var e, rest := es[0], es[1..];
      StepKeepsInv(s, e);
      pre, ctx, mid := LastRise(Step(s, e), rest, k, n);
      if !StaysAbove(Step(s, e), rest, k, n) {
        RisesLater(s, e, pre, ctx, mid, k, n);
        pre := [e] + pre;
        assert es == [e] + rest;
      } else if |s.stacks[k]| < n {
        RisesNow(s, e, rest, k, n);
        pre, ctx, mid := [], e.ctx, rest;
        assert es == [e] + rest;
      }
    }
  }

  lemma RisesLater(s: Sys, e: Event, pre: seq<Event>, ctx: Context, mid: seq<Event>, k: int, n: nat)
    requires Enabled(s, e) && Step(s, e).Inv() && 0 <= k < TERMINALS && RisesFor(Step(s, e), pre, ctx, mid, k, n)
    ensures RisesFor(s, [e] + pre, ctx, mid, k, n)
  {
    assert ([e] + pre)[1..] == pre;
    assert Run(s, [e] + pre) == Run(Step(s, e), pre);
  }

  // After `pre` an execute in context ctx on terminal k brings its stack to height n, and it stays there.
  ghost predicate RisesFor(s: Sys, pre: seq<Event>, ctx: Context, mid: seq<Event>, k: int, n: nat)
    requires s.Inv() && 0 <= k < TERMINALS
  {
    && AllEnabled(s, pre) && Enabled(Run(s, pre), Executed(ctx))
    && var s0 := Run(s, pre);
       && s0.running == k && |s0.stacks[k]| == n - 1 && Processes.Execute(s0, ctx).1 != -1
       && var s1 := Step(s0, Executed(ctx));
          && s1.Inv() && AllEnabled(s1, mid) && StaysAbove(s1, mid, k, n)
  }

  lemma RisesNow(s: Sys, e: Event, rest: seq<Event>, k: int, n: nat)
    requires Enabled(s, e) && 0 <= k < TERMINALS && 1 < n && |s.stacks[k]| < n
    requires Step(s, e).Inv() && AllEnabled(Step(s, e), rest) && StaysAbove(Step(s, e), rest, k, n)
    ensures e.Executed? && RisesFor(s, [], e.ctx, rest, k, n)
  {
    StepRises(s, e, k, n);
    assert AllEnabled(s, []) && Run(s, []) == s;
  }

  lemma StepRises(s: Sys, e: Event, k: int, n: nat)
    requires Enabled(s, e) && 0 <= k < TERMINALS && 1 < n
    requires |s.stacks[k]| < n <= |Step(s, e).stacks[k]|
    ensures e.Executed? && s.running == k && |s.stacks[k]| == n - 1 && Processes.Execute(s, e.ctx).1 != -1
  {
  }

  lemma {:induction false} RunThrough(s: Sys, pre: seq<Event>, e: Event, mid: seq<Event>)
    requires s.Inv() && AllEnabled(s, pre) && Enabled(Run(s, pre), e) && Step(Run(s, pre), e).Inv()
    requires AllEnabled(Step(Run(s, pre), e), mid) && AllEnabled(s, pre + [e] + mid)
    ensures Run(s, pre + [e] + mid) == Run(Step(Run(s, pre), e), mid)
    decreases |pre|
  {
    Joined(pre, e, mid);
    if pre != [] {
      StepKeepsInv(s, pre[0]);
      RunThrough(Step(s, pre[0]), pre[1..], e, mid);
    }
  }

  lemma Joined(pre: seq<Event>, e: Event, mid: seq<Event>)
    ensures var es := pre + [e] + mid;
            if pre == [] then es[0] == e && es[1..] == mid else es[0] == pre[0] && es[1..] == pre[1..] + [e] + mid
  {
  }

  // In every run from the boot on, each halt of a process that is no root ends an execute on the same
  // terminal: the halt resumes the context that execute was called in, the stack of the terminal is the
  // one it was called from, and in between the stack was never that low.
  lemma EveryHaltReturns(es: seq<Event>) returns (pre: seq<Event>, ctx: Context, mid: seq<Event>)
    requires AllEnabled(BOOT, es)
    requires Run(BOOT, es).AllUp() && |Run(BOOT, es).stacks[Run(BOOT, es).running]| > 1
    ensures var s := Run(BOOT, es);
            var k := s.running;
            && es == pre + [Executed(ctx)] + mid
            && RisesFor(BOOT, pre, ctx, mid, k, |s.stacks[k]|)
            && Enabled(s, Halted)
            && Halt(s).1 == Some(ctx)
            && Halt(s).0.stacks[k] == Run(BOOT, pre).stacks[k]
  {
    var s := Run(BOOT, es);
    var k := s.running;
    var n := |s.stacks[k]|;
    pre, ctx, mid := LastRise(BOOT, es, k, n);
    assert !StaysAbove(BOOT, es, k, n);
    var s0 := Run(BOOT, pre);
    assert s0.AllUp();
    RunThrough(BOOT, pre, Executed(ctx), mid);
    ExecuteHaltBracket(s0, ctx, mid);
  }
}
