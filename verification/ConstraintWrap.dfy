/** Serials wrap: what goes wrong when a verdict is heard one ask too late. The bound
  * under which the two ends agree is exact. */
module ConstraintWrap {
  import opened Bytes
  import opened Constraint
  import opened ConstraintCore
  import opened ConstraintSystem
  import opened Options

  function Times(step: Step, n: nat): (steps: seq<Step>)
    ensures |steps| == n
  {
    seq(n, _ => step)
  }

  /** Moving the live object's region `n` times asks `n` times more, and changes
    * nothing at the core or in the channel back. */
  lemma {:induction false} MovesRun(sys: System, o: nat, region: Region, n: nat)
    requires Inv(sys) && sys.shim.live == Some(o)
    ensures var steps := Times(AppMovesRegion(o, region), n);
            && Legal(sys, steps)
            && var t := Run(sys, steps);
               && Inv(t) && t.shim.live == Some(o) && t == sys.(shim := t.shim) && |t.shim.sent| == |sys.shim.sent| + n
               && forall i | |sys.shim.sent| <= i < |t.shim.sent| :: t.shim.sent[i].kind != KindNone
    decreases n
  {
    if n > 0 {
      var step := AppMovesRegion(o, region);
      var next := Next(sys, step);
      MoveKeeps(sys, o, region);
      MovesRun(next, o, region, n - 1);
      assert Times(step, n) == [step] + Times(step, n - 1);
      RunStarts(sys, step, Times(step, n - 1));
      MovesKeepAsks(next, o, region, n - 1);
    }
  }

  /** What was sent stays sent. */
  lemma {:induction false} MovesKeepAsks(sys: System, o: nat, region: Region, n: nat)
    requires Inv(sys) && sys.shim.live == Some(o) && Legal(sys, Times(AppMovesRegion(o, region), n))
    ensures sys.shim.sent <= Run(sys, Times(AppMovesRegion(o, region), n)).shim.sent
    decreases n
  {
    if n > 0 {
      var step := AppMovesRegion(o, region);
      MoveKeeps(sys, o, region);
      assert Times(step, n)[1..] == Times(step, n - 1);
      MovesKeepAsks(Next(sys, step), o, region, n - 1);
    }
  }

  /** The core hears `n` asks: each replaces the record, and supersedes only what
    * is no older than `oldest`. */
  lemma {:induction false} CoreHearsRun(sys: System, n: nat, oldest: nat)
    requires LiveExists(sys.shim) && sys.received + n <= |sys.shim.sent| && (sys.record.Some? ==> sys.record.value.id >= oldest)
    requires forall i | sys.received <= i < |sys.shim.sent| ::
               var ask := sys.shim.sent[i]; ask.kind != KindNone && ask.surface.Some? && ask.id >= oldest
    ensures var steps := Times(CoreHears, n);
            && Legal(sys, steps)
            && var t := Run(sys, steps);
               && t.shim == sys.shim && t.received == sys.received + n && t.heard == sys.heard && sys.said <= t.said
               && (forall i | |sys.said| <= i < |t.said| :: t.said[i].id >= oldest)
               && (n > 0 ==> t.record.Some?)
    decreases n
  {
    if n > 0 {
      CoreHearsRun(Next(sys, CoreHears), n - 1, oldest);
      assert Times(CoreHears, n) == [CoreHears] + Times(CoreHears, n - 1);
      RunStarts(sys, CoreHears, Times(CoreHears, n - 1));
    }
  }

  /** A shim with nothing live hears `n` verdicts and stays as it is. */
  lemma {:induction false} ShimHearsRun(sys: System, n: nat)
    requires sys.shim.live.None? && sys.heard + n <= |sys.said|
    requires forall i | sys.heard <= i < |sys.said| :: sys.shim.nextId - sys.said[i].id <= U32_LIMIT
    ensures Legal(sys, Times(ShimHears, n)) && Run(sys, Times(ShimHears, n)) == sys.(heard := sys.heard + n)
    decreases n
  {
    if n > 0 {
      ShimHearsRun(Next(sys, ShimHears), n - 1);
      assert Times(ShimHears, n) == [ShimHears] + Times(ShimHears, n - 1);
      RunStarts(sys, ShimHears, Times(ShimHears, n - 1));
    }
  }

  /** The withdrawal of the very first ask is on its way. */
  lemma Withdrawing(o: nat, obj: Object)
    requires obj.kind != KindNone
    ensures var steps := [AppCreates(o, obj), CoreHears, CoreWithdraws];
            && Legal(BEGIN, steps)
            && var t := Run(BEGIN, steps);
               && Inv(t) && t.shim.live == Some(o) && !t.shim.activated && |t.shim.sent| == 1
               && t.received == 1 && t.record == None && t.said == [Verdict(1, Withdrawn)] && t.heard == 0
  {
    var steps := [AppCreates(o, obj), CoreHears, CoreWithdraws];
    BeginInv();
    var a := Next(BEGIN, AppCreates(o, obj));
    var b := Next(a, CoreHears);
    var c := Next(b, CoreWithdraws);
    assert c.shim == a.shim && c.said == [Verdict(1, Withdrawn)] && c.record == None;
    hide Enabled, Timely, Next;
    assert Legal(c, []) && Run(c, []) == c;
    RunStarts(b, CoreWithdraws, []);
    RunStarts(a, CoreHears, [CoreWithdraws]);
    RunStarts(BEGIN, AppCreates(o, obj), [CoreHears, CoreWithdraws]);
    assert [AppCreates(o, obj)] + ([CoreHears] + ([CoreWithdraws] + [])) == steps;
    RunKeeps(BEGIN, steps);
  }

  /** Heard one ask later than the bound allows, a withdrawal of the first ask ends
    * the record of the latest; and once everything in flight has been delivered
    * the core holds a record that the shim has forgotten. */
  lemma LateVerdictDisagrees(o: nat, obj: Object, region: Region) returns (before: seq<Step>, after: seq<Step>)
    requires obj.kind != KindNone
    ensures Legal(BEGIN, before)
    ensures var late := Run(BEGIN, before);
            && LiveExists(late.shim) && Enabled(late, ShimHears) && late.shim.nextId - late.said[late.heard].id == U32_LIMIT + 1
            && late.shim.live.Some? && Next(late, ShimHears).shim.live.None?
            && Legal(Next(late, ShimHears), after)
            && var end := Run(Next(late, ShimHears), after);
               Quiescent(end) && !Agreed(end) && end.record.Some? && end.shim.live.None?
  {
    var first := [AppCreates(o, obj), CoreHears, CoreWithdraws];
    var moves := Times(AppMovesRegion(o, region), U32_LIMIT);
    hide Times;
    Withdrawing(o, obj);
    var start := Run(BEGIN, first);
    MovesRun(start, o, region, U32_LIMIT);
    RunJoins(BEGIN, first, moves);
    before := first + moves;
    var late := Run(start, moves);
    SerialWraps();
    after := DeliverRest(Next(late, ShimHears));
  }

  lemma SerialWraps()
    ensures Serial(1) == Serial(U32_LIMIT + 1)
  {
  }

  /** With nothing live at the shim, the asks and then the verdicts are delivered. */
  lemma DeliverRest(lost: System) returns (after: seq<Step>)
    requires lost.shim.live.None? && lost.record.None? && lost.heard == |lost.said|
    requires lost.received < |lost.shim.sent| && lost.shim.nextId <= U32_LIMIT + 2
    requires forall i | lost.received <= i < |lost.shim.sent| ::
               var ask := lost.shim.sent[i]; ask.kind != KindNone && ask.surface.Some? && ask.id >= 2
    ensures Legal(lost, after)
    ensures var end := Run(lost, after); Quiescent(end) && end.record.Some? && end.shim.live.None?
  {
    var asks := Times(CoreHears, |lost.shim.sent| - lost.received);
    CoreHearsRun(lost, |asks|, 2);
    var heard := Run(lost, asks);
    var verdicts := Times(ShimHears, |heard.said| - heard.heard);
    ShimHearsRun(heard, |verdicts|);
    RunJoins(lost, asks, verdicts);
    after := asks + verdicts;
  }
}
