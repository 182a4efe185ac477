/** What an app's own objects are told over a run: when the shim's `activated`
  * flag is a faithful account of it, and the one step after which it is not. */
module ConstraintEvents {
  import opened Constraint
  import opened ConstraintCore
  import opened ConstraintSystem
  import opened Options

  /** The objects that exist and were last told they are active. */
  function ToldActive(events: seq<Event>): set<nat>
  {
    if events == [] then {}
    else
      var before := ToldActive(events[..|events| - 1]);
      match events[|events| - 1]
      case Activated(o) => before + {o}
      case Deactivated(o) => before - {o}
      case Destroyed(o) => before - {o}
  }

  /** Nothing is activated while anything is active, nothing is deactivated that
    * is not, and nothing is told to an object already destroyed. */
  predicate WellTold(events: seq<Event>)
  {
    events != [] ==>
      var before, last := events[..|events| - 1], events[|events| - 1];
      && WellTold(before) && Destroyed(last.o) !in before
      && (last.Activated? ==> ToldActive(before) == {})
      && (last.Deactivated? ==> last.o in ToldActive(before))
  }

  /** The shim's flag says exactly which object has been told what. */
  predicate Faithful(s: Shim)
  {
    && WellTold(s.events)
    && ToldActive(s.events) == (if s.live.Some? && s.activated then {s.live.value} else {})
    && (forall o | o in s.objects :: Destroyed(o) !in s.events)
  }

  lemma Tell(events: seq<Event>, e: Event)
    requires WellTold(events) && Destroyed(e.o) !in events
    requires e.Activated? ==> ToldActive(events) == {}
    requires e.Deactivated? ==> e.o in ToldActive(events)
    ensures WellTold(events + [e])
    ensures ToldActive(events + [e]) == if e.Activated? then ToldActive(events) + {e.o} else ToldActive(events) - {e.o}
  {
  }

  /** A refusal, like a supersession, tells no object anything, destroys none and
    * asks for nothing: the app's object stays as it is, inert. */
  lemma RefusalIsSilent(s: Shim, id: nat, status: Status)
    requires LiveExists(s) && (status == Refused || status == Superseded)
    ensures var t := HandleState(s, Verdict(id, status));
            && t.events == s.events && t.objects == s.objects && t.sent == s.sent
            && (t.live.Some? ==> t == s) && (status == Superseded ==> t == s)
            && (status == Refused && s.live.Some? && Serial(id) == Serial(s.id) ==> t.live.None?)
  {
  }

  /** Deactivation is the end of a oneshot object and not of a persistent one; if it
    * was the live one, the core is told that it is gone. */
  lemma DeactivationEnds(s: Shim, o: nat)
    requires o in s.objects
    ensures var t := SendDeactivated(s, o);
            && (o in t.objects <==> s.objects[o].lifetime == Persistent)
            && (s.objects[o].lifetime == Persistent ==> t == s.(events := s.events + [Deactivated(o)]))
            && (s.objects[o].lifetime == Oneshot ==>
                  && t.events == s.events + [Deactivated(o), Destroyed(o)] && t.live == (if s.live == Some(o) then None else s.live)
                  && (s.live == Some(o) <==> t.sent != s.sent)
                  && (s.live == Some(o) ==> |t.sent| == |s.sent| + 1 && t.sent[|s.sent|].kind == KindNone))
  {
  }

  /** The region of the object in force changes: the one step that makes the
    * flag forget what the object was told. */
  predicate RegionWhileActive(sys: System, step: Step)
  {
    step.AppMovesRegion? && sys.shim.live == Some(step.o) && sys.shim.activated
  }

  lemma DestroyFaithful(s: Shim, o: nat)
    requires WellTold(s.events) && o in s.objects && LiveExists(s)
    requires forall x | x in s.objects :: Destroyed(x) !in s.events
    requires ToldActive(s.events) - {o} == if s.live.Some? && s.live != Some(o) && s.activated then {s.live.value} else {}
    ensures Faithful(DestroyObject(s, o))
  {
  }

  lemma DeactivateFaithful(s: Shim)
    requires s.live.Some? && s.live.value in s.objects && WellTold(s.events) && ToldActive(s.events) == {s.live.value}
    requires forall x | x in s.objects :: Destroyed(x) !in s.events
    ensures var t := SendDeactivated(s, s.live.value);
            && WellTold(t.events) && ToldActive(t.events) == {} && (forall x | x in t.objects :: Destroyed(x) !in t.events)
            && t.objects.Keys <= s.objects.Keys && (t.live == s.live || (t.live.None? && !t.activated))
  {
    var o := s.live.value;
    Tell(s.events, Deactivated(o));
    var told := s.(events := s.events + [Deactivated(o)]);
    if s.objects[o].lifetime == Oneshot {
      DestroyFaithful(told, o);
    }
  }

  lemma CreateFaithful(sys: System, o: nat, obj: Object)
    requires Inv(sys) && Faithful(sys.shim) && Enabled(sys, AppCreates(o, obj))
    ensures Faithful(Next(sys, AppCreates(o, obj)).shim)
  {
    assert LiveExists(sys.shim);
    hide Inv, WellTold, ToldActive;
    var created := sys.shim.(objects := sys.shim.objects[o := obj]);
    assert forall e | e in created.events :: e.o != o;
    if created.live.Some? && created.activated {
      DeactivateFaithful(created);
    }
  }

  lemma HearFaithful(sys: System)
    requires Inv(sys) && Faithful(sys.shim) && Enabled(sys, ShimHears) && Timely(sys, ShimHears)
    ensures Faithful(Next(sys, ShimHears).shim)
  {
    hide WellTold, ToldActive, HearAll, Converging;
    var s, v := sys.shim, sys.said[sys.heard];
    assert v in sys.said;
    if s.live.Some? {
      SerialNames(v.id, s.id);
      if v.id == s.id {
        HeadVerdict(sys);
        if v.status == Active && !s.activated {
          Tell(s.events, Activated(s.live.value));
        } else if v.status != Active && s.activated {
          DeactivateFaithful(s.(activated := false));
        }
      }
    }
  }

  lemma DestroyedFaithful(sys: System, o: nat)
    requires Inv(sys) && Faithful(sys.shim) && Enabled(sys, AppDestroys(o))
    ensures Faithful(Next(sys, AppDestroys(o)).shim)
  {
    DestroyFaithful(sys.shim, o);
  }

  /** A step keeps the flag faithful exactly when it is not a region change on
    * the object in force. */
  lemma FaithfulIff(sys: System, step: Step)
    requires Inv(sys) && Faithful(sys.shim) && Enabled(sys, step) && Timely(sys, step)
    ensures Faithful(Next(sys, step).shim) <==> !RegionWhileActive(sys, step)
  {
    match step
    case AppCreates(o, obj) => CreateFaithful(sys, o, obj);
    case AppDestroys(o) => DestroyedFaithful(sys, o);
    case AppMovesRegion(o, region) =>
    case ShimHears => HearFaithful(sys);
    case CoreHears =>
    case CoreReconciles(now) =>
    case CoreWithdraws =>
  }

  /** A run in which no active object's region changes. */
  ghost predicate Calm(sys: System, steps: seq<Step>)
    requires Legal(sys, steps)
    decreases |steps|
  {
    steps != [] ==> !RegionWhileActive(sys, steps[0]) && Calm(Next(sys, steps[0]), steps[1..])
  }

  lemma {:induction false} CalmRunsFaithful(sys: System, steps: seq<Step>)
    requires Inv(sys) && Faithful(sys.shim) && Legal(sys, steps) && Calm(sys, steps)
    ensures Faithful(Run(sys, steps).shim)
    decreases |steps|
  {
    if steps != [] {
      FaithfulIff(sys, steps[0]);
      StepKeeps(sys, steps[0]);
      CalmRunsFaithful(Next(sys, steps[0]), steps[1..]);
    }
  }

  /** The activations (true) and deactivations (false) one object received. */
  function ToldTo(events: seq<Event>, o: nat): seq<bool>
  {
    if events == [] then []
    else
      var last := events[|events| - 1];
      ToldTo(events[..|events| - 1], o) + (if last.o == o && !last.Destroyed? then [last.Activated?] else [])
  }

  lemma {:induction false} WellToldAlternates(events: seq<Event>, o: nat)
    requires WellTold(events)
    ensures forall i | 0 <= i < |ToldTo(events, o)| :: ToldTo(events, o)[i] <==> i % 2 == 0
    ensures Destroyed(o) !in events ==> (o in ToldActive(events) <==> |ToldTo(events, o)| % 2 == 1)
  {
    if events != [] {
      var before, last := events[..|events| - 1], events[|events| - 1];
      WellToldAlternates(before, o);
      assert events == before + [last];
    }
  }

  lemma {:induction false} AtMostOneActive(events: seq<Event>, a: nat, b: nat)
    requires WellTold(events) && a in ToldActive(events) && b in ToldActive(events)
    ensures a == b
  {
    var before, last := events[..|events| - 1], events[|events| - 1];
    if !last.Activated? {
      AtMostOneActive(before, a, b);
    }
  }

  /** On every run with no region change on the object in force, each app object
    * is told activated and deactivated in turn, beginning with activated, and at
    * most one object at a time is active. */
  lemma ObjectsAlternate(steps: seq<Step>, o: nat)
    requires Legal(BEGIN, steps) && Calm(BEGIN, steps)
    ensures var events := Run(BEGIN, steps).shim.events;
            && (forall i | 0 <= i < |ToldTo(events, o)| :: ToldTo(events, o)[i] <==> i % 2 == 0)
            && (forall a, b | a in ToldActive(events) && b in ToldActive(events) :: a == b)
  {
    BeginInv();
    CalmRunsFaithful(BEGIN, steps);
    var events := Run(BEGIN, steps).shim.events;
    WellToldAlternates(events, o);
    forall a, b | a in ToldActive(events) && b in ToldActive(events) ensures a == b {
      AtMostOneActive(events, a, b);
    }
  }

  // ---- how it goes wrong -----------------------------------------------------------

  /** What follows when the region of the object in force changes and the core
    * finds the new ask in force too. */
  const REPLACED := [CoreHears, ShimHears, CoreReconciles(Active), ShimHears]

  lemma Unroll(sys: System, steps: seq<Step>)
    requires steps != [] && LiveExists(sys.shim) && Enabled(sys, steps[0]) && Timely(sys, steps[0])
    requires Legal(Next(sys, steps[0]), steps[1..])
    ensures Legal(sys, steps) && Run(sys, steps) == Run(Next(sys, steps[0]), steps[1..])
  {
  }

  lemma UnrollFour(a: System, b: System, c: System, d: System, steps: seq<Step>)
    requires |steps| == 4
    requires LiveExists(a.shim) && Enabled(a, steps[0]) && Timely(a, steps[0]) && b == Next(a, steps[0])
    requires LiveExists(b.shim) && Enabled(b, steps[1]) && Timely(b, steps[1]) && c == Next(b, steps[1])
    requires LiveExists(c.shim) && Enabled(c, steps[2]) && Timely(c, steps[2]) && d == Next(c, steps[2])
    requires LiveExists(d.shim) && Enabled(d, steps[3]) && Timely(d, steps[3])
    ensures Legal(a, steps) && Run(a, steps) == Next(d, steps[3])
  {
    hide Enabled, Timely, Next, LiveExists;
    var last := Next(d, steps[3]);
    assert Legal(last, []) && Run(last, []) == last;
    assert steps[3..][1..] == [] && steps[2..][1..] == steps[3..] && steps[1..][1..] == steps[2..];
    Unroll(d, steps[3..]);
    Unroll(c, steps[2..]);
    Unroll(b, steps[1..]);
    Unroll(a, steps);
  }

  /** From any quiet state with an object in force, a region change is followed
    * by a legal run in which that object is told activated a second time with
    * no deactivation between. */
  lemma RegionChangeRepeatsActivation(sys: System, o: nat, region: Region)
    requires Inv(sys) && Quiescent(sys) && sys.shim.live == Some(o) && sys.shim.activated
    ensures Enabled(sys, AppMovesRegion(o, region))
    ensures var moved := Next(sys, AppMovesRegion(o, region));
            Legal(moved, REPLACED) && Run(moved, REPLACED).shim.events == sys.shim.events + [Activated(o)]
  {
    QuietAgrees(sys);
    var s := sys.shim;
    var a := Next(sys, AppMovesRegion(o, region));
    var ask := a.shim.sent[|s.sent|];
    assert ask.id == s.nextId && ask.surface.Some? && ask.kind != KindNone;
    var b := Next(a, CoreHears);
    assert b.said == sys.said + [Verdict(s.id, Superseded)] && b.record.Some?;
    var c := Next(b, ShimHears);
    assert c == b.(heard := b.heard + 1) by {
      SerialNames(s.id, a.shim.id);
    }
    var d := Next(c, CoreReconciles(Active));
    assert d.said == b.said + [Verdict(a.shim.id, Active)];
    UnrollFour(a, b, c, d, REPLACED);
  }

  /** Asking, being heard, found in force and told so. */
  function Activation(o: nat, obj: Object): seq<Step>
  {
    [AppCreates(o, obj), CoreHears, CoreReconciles(Active), ShimHears]
  }

  lemma ActivationRun(o: nat, obj: Object)
    requires obj.kind != KindNone
    ensures Legal(BEGIN, Activation(o, obj))
    ensures var t := Run(BEGIN, Activation(o, obj));
            Inv(t) && Quiescent(t) && t.shim.live == Some(o) && t.shim.activated && t.shim.events == [Activated(o)]
  {
    var a := Next(BEGIN, AppCreates(o, obj));
    var b := Next(a, CoreHears);
    var c := Next(b, CoreReconciles(Active));
    UnrollFour(BEGIN, a, b, c, Activation(o, obj));
    BeginInv();
    RunKeeps(BEGIN, Activation(o, obj));
  }

  /** Such a run from the very beginning: the object's whole history is two
    * activations. */
  lemma TwiceActivated(o: nat, obj: Object, region: Region)
    requires obj.kind != KindNone
    ensures var steps := Activation(o, obj) + ([AppMovesRegion(o, region)] + REPLACED);
            Legal(BEGIN, steps) && Run(BEGIN, steps).shim.events == [Activated(o), Activated(o)]
  {
    hide Activation, Next, Enabled, Timely;
    ActivationRun(o, obj);
    var t := Run(BEGIN, Activation(o, obj));
    RegionChangeRepeatsActivation(t, o, region);
    assert Timely(t, AppMovesRegion(o, region)) by {
      MovesAreTimely(t, o, region);
    }
    RunStarts(t, AppMovesRegion(o, region), REPLACED);
    RunJoins(BEGIN, Activation(o, obj), [AppMovesRegion(o, region)] + REPLACED);
  }

  lemma MovesAreTimely(sys: System, o: nat, region: Region)
    ensures Timely(sys, AppMovesRegion(o, region))
  {
  }
}
