/** The shim and the core joined by two ordered channels, for one realm. Any
  * app event, core transition or delivery may come next; everything proved here
  * holds of every such run. */
module ConstraintSystem {
  import opened Bytes
  import opened Constraint
  import opened ConstraintCore
  import opened Options

  /** `sent` in the shim and `said` here are whole histories; the channels hold
    * what lies beyond `received` and `heard`. */
  datatype System = System(shim: Shim, record: Option<Record>, received: nat, said: seq<Verdict>, heard: nat)

  const BEGIN := System(START, None, 0, [], 0)

  datatype Step =
    | AppCreates(o: nat, obj: Object)
    | AppDestroys(o: nat)
    | AppMovesRegion(o: nat, region: Region)
    | ShimHears
    | CoreHears
    | CoreReconciles(now: Status)
    | CoreWithdraws

  /** The numbers an object is ever called by; a number is never used twice. */
  function Names(events: seq<Event>, objects: map<nat, Object>): set<nat>
  {
    objects.Keys + (set e | e in events :: e.o)
  }

  predicate Enabled(sys: System, step: Step)
  {
    match step
    case AppCreates(o, obj) => o !in Names(sys.shim.events, sys.shim.objects) && obj.kind != KindNone
    case AppDestroys(o) => o in sys.shim.objects
    case AppMovesRegion(o, _) => o in sys.shim.objects
    case ShimHears => sys.heard < |sys.said|
    case CoreHears => sys.received < |sys.shim.sent|
    case CoreReconciles(now) => now == Active || now == Inactive
    case CoreWithdraws => true
  }

  function Rule(sys: System, ruling: Ruling): System
  {
    sys.(record := ruling.record, said := sys.said + ruling.verdicts)
  }

  function Next(sys: System, step: Step): System
    requires LiveExists(sys.shim) && Enabled(sys, step)
  {
    match step
    case AppCreates(o, obj) => sys.(shim := OnNewConstraint(sys.shim, o, obj))
    case AppDestroys(o) => sys.(shim := DestroyObject(sys.shim, o))
    case AppMovesRegion(o, region) => sys.(shim := OnSetRegion(sys.shim, o, region))
    case ShimHears => sys.(shim := HandleState(sys.shim, sys.said[sys.heard]), heard := sys.heard + 1)
    case CoreHears => Rule(sys, Judge(sys.record, sys.shim.sent[sys.received])).(received := sys.received + 1)
    case CoreReconciles(now) => Rule(sys, Reconcile(sys.record, now))
    case CoreWithdraws => Rule(sys, Withdraw(sys.record))
  }

  /** The verdict about to be heard is not so old that 2^32 asks have been
    * minted since the one it answers. */
  predicate Timely(sys: System, step: Step)
  {
    step.ShimHears? && sys.heard < |sys.said| ==> sys.shim.nextId - sys.said[sys.heard].id <= U32_LIMIT
  }

  // ---- what a verdict stream tells the live record -------------------------

  /** Where the verdicts still in flight will leave the live record; `Broken`
    * marks a verdict the core must never have sent. */
  datatype Belief = Holds(active: bool) | Gone | Broken

  function Hear(b: Belief, status: Status, lifetime: Lifetime): Belief
  {
    if !b.Holds? then Broken
    else
      match status
      case Active => Holds(true)
      case Inactive => if b.active && lifetime == Oneshot then Broken else Holds(false)
      case Withdrawn => Gone
      case Refused => Broken
      case Superseded => Broken
  }

  function HearAll(b: Belief, vs: seq<Verdict>, id: nat, lifetime: Lifetime): Belief
    decreases |vs|
  {
    if vs == [] then b
    else HearAll(if vs[0].id == id then Hear(b, vs[0].status, lifetime) else b, vs[1..], id, lifetime)
  }

  /** What the core makes of its record. */
  function CoreBelief(record: Option<Record>): Belief
  {
    if record.None? then Gone else Holds(record.value.state == Active)
  }

  // ---- the invariant ---------------------------------------------------------

  /** Serials are minted one per ask, in order, and never reused. */
  ghost predicate AskStream(s: Shim)
  {
    && s.nextId == |s.sent| + 1
    && (forall i | 0 <= i < |s.sent| :: s.sent[i].id == i + 1 && (s.sent[i].kind == KindNone || s.sent[i].surface.Some?))
  }

  /** The ask an object makes under the given number. */
  function OwnAsk(id: nat, obj: Object): Ask
  {
    Ask(id, Some(SURFACE_ID), obj.kind, obj.lifetime, obj.region)
  }

  /** While something is live the last message sent is its own ask; while nothing
    * is, no ask is still on its way. */
  ghost predicate LastWord(sys: System)
  {
    var s := sys.shim;
    if s.live.Some? then
      && s.live.value in s.objects && s.id == |s.sent| > 0
      && s.sent[|s.sent| - 1] == OwnAsk(s.id, s.objects[s.live.value])
    else
      && !s.activated && s.id == 0
      && (if sys.received < |s.sent| then s.sent[|s.sent| - 1].kind == KindNone else sys.record.None?)
  }

  /** The core's record is the last ask it heard. */
  ghost predicate RecordCurrent(sys: System)
  {
    && sys.received <= |sys.shim.sent| && sys.heard <= |sys.said|
    && (forall v | v in sys.said :: 1 <= v.id <= sys.received)
    && (sys.record.Some? ==>
          var r := sys.record.value;
          && r.id == sys.received > 0 && Settled(r)
          && var ask := sys.shim.sent[r.id - 1];
             ask.kind != KindNone && r.kind == ask.kind && r.lifetime == ask.lifetime && r.region == ask.region)
  }

  /** The verdicts in flight will bring the shim to what the core believes. */
  ghost predicate Converging(sys: System)
    requires sys.heard <= |sys.said| && LiveExists(sys.shim)
  {
    var s := sys.shim;
    s.live.Some? ==>
      if sys.received < |s.sent| then !s.activated
      else HearAll(Holds(s.activated), sys.said[sys.heard..], s.id, s.objects[s.live.value].lifetime) == CoreBelief(sys.record)
  }

  ghost predicate Inv(sys: System)
  {
    && LiveExists(sys.shim) && AskStream(sys.shim) && RecordCurrent(sys) && LastWord(sys) && Converging(sys)
    && (forall o | o in sys.shim.objects :: sys.shim.objects[o].kind != KindNone)
  }

  // ---- facts about hearing -----------------------------------------------------

  lemma {:induction false} HearAllAppend(b: Belief, vs: seq<Verdict>, ws: seq<Verdict>, id: nat, lifetime: Lifetime)
    ensures HearAll(b, vs + ws, id, lifetime) == HearAll(HearAll(b, vs, id, lifetime), ws, id, lifetime)
    decreases |vs|
  {
    if vs == [] {
      assert vs + ws == ws;
    } else {
      assert (vs + ws)[1..] == vs[1..] + ws;
      HearAllAppend(if vs[0].id == id then Hear(b, vs[0].status, lifetime) else b, vs[1..], ws, id, lifetime);
    }
  }

  lemma {:induction false} HearNothing(b: Belief, vs: seq<Verdict>, id: nat, lifetime: Lifetime)
    requires forall v | v in vs :: v.id != id
    ensures HearAll(b, vs, id, lifetime) == b
    decreases |vs|
  {
    if vs != [] {
      assert vs[0] in vs;
      HearNothing(b, vs[1..], id, lifetime);
    }
  }

  lemma {:induction false} BrokenStays(vs: seq<Verdict>, id: nat, lifetime: Lifetime)
    ensures HearAll(Broken, vs, id, lifetime) == Broken
  {
    if vs != [] {
      BrokenStays(vs[1..], id, lifetime);
    }
  }

  lemma {:induction false} GoneStays(vs: seq<Verdict>, id: nat, lifetime: Lifetime)
    ensures HearAll(Gone, vs, id, lifetime) == Gone || HearAll(Gone, vs, id, lifetime) == Broken
  {
    if vs != [] {
      if vs[0].id == id {
        BrokenStays(vs[1..], id, lifetime);
      } else {
        GoneStays(vs[1..], id, lifetime);
      }
    }
  }

  /** Within 2^32 asks a serial names one ask. */
  lemma SerialNames(a: nat, b: nat)
    requires a <= b < a + U32_LIMIT
    ensures Serial(a) == Serial(b) <==> a == b
  {
  }

  // ---- every step keeps the invariant -------------------------------------------

  lemma BeginInv()
    ensures Inv(BEGIN)
  {
  }

  /** A fresh ask supersedes whatever was in flight for the shim. */
  lemma AskKeeps(sys: System, s: Shim, o: nat)
    requires Inv(sys) && o in s.objects && s.live == Some(o)
    requires sys.shim.sent <= s.sent && AskStream(s) && forall x | x in s.objects :: s.objects[x].kind != KindNone
    ensures Inv(sys.(shim := AskFor(s, o)))
  {
  }

  lemma CreateKeeps(sys: System, o: nat, obj: Object)
    requires Inv(sys) && Enabled(sys, AppCreates(o, obj))
    ensures Inv(Next(sys, AppCreates(o, obj)))
  {
    var created := sys.shim.(objects := sys.shim.objects[o := obj]);
    var told := if created.live.Some? && created.activated then SendDeactivated(created, created.live.value) else created;
    var idle := ForgetLive(told).(live := Some(o));
    assert o in idle.objects;
    AskKeeps(sys, idle, o);
  }

  lemma DestroyKeeps(sys: System, o: nat)
    requires Inv(sys) && Enabled(sys, AppDestroys(o))
    ensures Inv(Next(sys, AppDestroys(o)))
  {
    hide HearAll, CoreBelief, Settled;
  }

  lemma MoveKeeps(sys: System, o: nat, region: Region)
    requires Inv(sys) && Enabled(sys, AppMovesRegion(o, region))
    ensures Inv(Next(sys, AppMovesRegion(o, region)))
  {
    var moved := sys.shim.(objects := sys.shim.objects[o := sys.shim.objects[o].(region := region)]);
    if moved.live == Some(o) {
      AskKeeps(sys, moved, o);
    }
  }

  /** One record's ruling is heard as exactly the change it makes. */
  lemma RulingIsHeard(record: Option<Record>, ruling: Ruling, id: nat, lifetime: Lifetime)
    requires record.Some? ==> Settled(record.value) && record.value.lifetime == lifetime && record.value.id == id
    requires ruling == Withdraw(record) || ruling == Reconcile(record, Active) || ruling == Reconcile(record, Inactive)
    ensures HearAll(CoreBelief(record), ruling.verdicts, id, lifetime) == CoreBelief(ruling.record)
  {
  }

  lemma SpeakKeeps(sys: System, ruling: Ruling)
    requires Inv(sys)
    requires ruling == Withdraw(sys.record) || ruling == Reconcile(sys.record, Active) || ruling == Reconcile(sys.record, Inactive)
    ensures Inv(Rule(sys, ruling))
  {
    var s, t := sys.shim, Rule(sys, ruling);
    assert t.said[sys.heard..] == sys.said[sys.heard..] + ruling.verdicts;
    if s.live.Some? && sys.received == |s.sent| {
      var lifetime := s.objects[s.live.value].lifetime;
      HearAllAppend(Holds(s.activated), sys.said[sys.heard..], ruling.verdicts, s.id, lifetime);
      RulingIsHeard(sys.record, ruling, s.id, lifetime);
    }
  }

  lemma CoreHearsKeeps(sys: System)
    requires Inv(sys) && Enabled(sys, CoreHears)
    ensures Inv(Next(sys, CoreHears))
  {
    var s, ask := sys.shim, sys.shim.sent[sys.received];
    var ruling, t := Judge(sys.record, ask), Next(sys, CoreHears);
    assert ask.id == sys.received + 1;
    assert forall v | v in ruling.verdicts :: 1 <= v.id <= sys.received;
    assert t.said[sys.heard..] == sys.said[sys.heard..] + ruling.verdicts;
    if s.live.Some? && t.received == |s.sent| {
      HearNothing(Holds(s.activated), t.said[sys.heard..], s.id, s.objects[s.live.value].lifetime);
    }
  }

  /** The verdict at the head of the channel, when it is about the live record:
    * a legal one, and the rest of the channel continues from it. */
  lemma HeadVerdict(sys: System)
    requires Inv(sys) && sys.heard < |sys.said| && sys.shim.live.Some? && sys.said[sys.heard].id == sys.shim.id
    ensures sys.received == |sys.shim.sent|
    ensures var v, lifetime := sys.said[sys.heard], sys.shim.objects[sys.shim.live.value].lifetime;
            var after := Hear(Holds(sys.shim.activated), v.status, lifetime);
            && after != Broken && (after == Gone ==> sys.record.None?)
            && HearAll(after, sys.said[sys.heard + 1..], sys.shim.id, lifetime) == CoreBelief(sys.record)
  {
    var s, v := sys.shim, sys.said[sys.heard];
    assert v in sys.said;
    var rest, lifetime := sys.said[sys.heard..], s.objects[s.live.value].lifetime;
    assert rest[0] == v && rest[1..] == sys.said[sys.heard + 1..];
    BrokenStays(rest[1..], s.id, lifetime);
    GoneStays(rest[1..], s.id, lifetime);
  }

  lemma HearsInForceKeeps(sys: System)
    requires Inv(sys) && Enabled(sys, ShimHears) && sys.shim.live.Some? && sys.said[sys.heard].id == sys.shim.id
    requires sys.said[sys.heard].status == Active || sys.said[sys.heard].status == Inactive
    ensures Inv(Next(sys, ShimHears))
  {
    HeadVerdict(sys);
    hide HearAll;
  }

  lemma HearsWithdrawnKeeps(sys: System)
    requires Inv(sys) && Enabled(sys, ShimHears) && sys.shim.live.Some? && sys.said[sys.heard].id == sys.shim.id
    requires sys.said[sys.heard].status == Withdrawn
    ensures Inv(Next(sys, ShimHears))
  {
    HeadVerdict(sys);
    hide HearAll;
  }

  lemma ShimHearsKeeps(sys: System)
    requires Inv(sys) && Enabled(sys, ShimHears) && Timely(sys, ShimHears)
    ensures Inv(Next(sys, ShimHears))
  {
    var s, v := sys.shim, sys.said[sys.heard];
    assert v in sys.said;
    if s.live.Some? && v.id == s.id {
      HeadVerdict(sys);
      if v.status == Withdrawn {
        HearsWithdrawnKeeps(sys);
      } else {
        HearsInForceKeeps(sys);
      }
    } else {
      hide SendDeactivated;
      if s.live.Some? {
        SerialNames(v.id, s.id);
        assert sys.said[sys.heard..][1..] == sys.said[sys.heard + 1..];
      }
      assert HandleState(s, v) == s;
    }
  }

  /** Every enabled step, the untimely verdict alone excepted, keeps the
    * invariant. */
  lemma StepKeeps(sys: System, step: Step)
    requires Inv(sys) && Enabled(sys, step) && Timely(sys, step)
    ensures Inv(Next(sys, step))
  {
    hide Inv;
    match step
    case AppCreates(o, obj) => CreateKeeps(sys, o, obj);
    case AppDestroys(o) => DestroyKeeps(sys, o);
    case AppMovesRegion(o, region) => MoveKeeps(sys, o, region);
    case ShimHears => ShimHearsKeeps(sys);
    case CoreHears => CoreHearsKeeps(sys);
    case CoreReconciles(now) => SpeakKeeps(sys, Reconcile(sys.record, now));
    case CoreWithdraws => SpeakKeeps(sys, Withdraw(sys.record));
  }

  // ---- whole runs ------------------------------------------------------------------

  ghost predicate Legal(sys: System, steps: seq<Step>)
    decreases |steps|
  {
    steps != [] ==>
      && LiveExists(sys.shim) && Enabled(sys, steps[0]) && Timely(sys, steps[0])
      && Legal(Next(sys, steps[0]), steps[1..])
  }

  ghost function Run(sys: System, steps: seq<Step>): System
    requires Legal(sys, steps)
    decreases |steps|
  {
    if steps == [] then sys else Run(Next(sys, steps[0]), steps[1..])
  }

  lemma {:induction false} RunKeeps(sys: System, steps: seq<Step>)
    requires Inv(sys) && Legal(sys, steps)
    ensures Inv(Run(sys, steps))
    decreases |steps|
  {
    if steps != [] {
      StepKeeps(sys, steps[0]);
      RunKeeps(Next(sys, steps[0]), steps[1..]);
    }
  }

  lemma {:induction false} RunJoins(sys: System, steps: seq<Step>, more: seq<Step>)
    requires Legal(sys, steps) && Legal(Run(sys, steps), more)
    ensures Legal(sys, steps + more) && Run(sys, steps + more) == Run(Run(sys, steps), more)
    decreases |steps|
  {
    if steps == [] {
      assert steps + more == more;
    } else {
      assert (steps + more)[1..] == steps[1..] + more;
      RunJoins(Next(sys, steps[0]), steps[1..], more);
    }
  }

  /** One step, then a run. */
  lemma RunStarts(sys: System, step: Step, more: seq<Step>)
    requires LiveExists(sys.shim) && Enabled(sys, step) && Timely(sys, step) && Legal(Next(sys, step), more)
    ensures Legal(sys, [step] + more) && Run(sys, [step] + more) == Run(Next(sys, step), more)
  {
    assert ([step] + more)[1..] == more;
  }

  /** Nothing is on its way in either direction. */
  predicate Quiescent(sys: System)
  {
    sys.received == |sys.shim.sent| && sys.heard == |sys.said|
  }

  /** Both ends hold a record or neither does, under the same serial; the core's is
    * of the live object's own kind, lifetime and region; and they agree on whether
    * it is in force. */
  predicate Agreed(sys: System)
  {
    if sys.record.Some? then
      && sys.shim.live.Some? && sys.shim.live.value in sys.shim.objects
      && var r, obj := sys.record.value, sys.shim.objects[sys.shim.live.value];
         && r.id == sys.shim.id && r.kind == obj.kind && r.lifetime == obj.lifetime && r.region == obj.region
         && sys.shim.activated == (r.state == Active)
    else sys.shim.live.None? && !sys.shim.activated
  }

  lemma QuietAgrees(sys: System)
    requires Inv(sys) && Quiescent(sys)
    ensures Agreed(sys)
  {
  }

  /** In every run, whenever both channels are empty the two ends agree. */
  lemma QuiescentAgreement(steps: seq<Step>)
    requires Legal(BEGIN, steps) && Quiescent(Run(BEGIN, steps))
    ensures Agreed(Run(BEGIN, steps))
  {
    BeginInv();
    RunKeeps(BEGIN, steps);
    QuietAgrees(Run(BEGIN, steps));
  }

  /** In every run, the next verdict either concerns the live record and is
    * neither a refusal nor a supersession, or it changes nothing at the shim and
    * touches no app object. */
  lemma StaleVerdictsAreInert(steps: seq<Step>)
    requires Legal(BEGIN, steps)
    requires var sys := Run(BEGIN, steps); sys.heard < |sys.said| && Timely(sys, ShimHears)
    ensures var sys := Run(BEGIN, steps);
            var v := sys.said[sys.heard];
            && LiveExists(sys.shim)
            && if sys.shim.live.Some? && v.id == sys.shim.id then v.status != Refused && v.status != Superseded
               else HandleState(sys.shim, v) == sys.shim
  {
    BeginInv();
    RunKeeps(BEGIN, steps);
    var sys := Run(BEGIN, steps);
    var v := sys.said[sys.heard];
    assert v in sys.said;
    if sys.shim.live.Some? {
      SerialNames(v.id, sys.shim.id);
      if v.id == sys.shim.id {
        HeadVerdict(sys);
      }
    }
  }

  /** In every run, the serials on the wire strictly rise exactly until the 32 bits
    * are used up, and none is used twice exactly until one ask later, since the
    * first is 1; and while a constraint is live the last thing sent is its object's
    * own ask, under the serial the shim compares verdicts with. */
  lemma AskDiscipline(steps: seq<Step>)
    requires Legal(BEGIN, steps)
    ensures var s := Run(BEGIN, steps).shim;
            && ((forall i, j | 0 <= i < j < |s.sent| :: Serial(s.sent[i].id) < Serial(s.sent[j].id)) <==> |s.sent| < U32_LIMIT)
            && ((forall i, j | 0 <= i < j < |s.sent| :: Serial(s.sent[i].id) != Serial(s.sent[j].id)) <==> |s.sent| <= U32_LIMIT)
            && (s.live.Some? ==> s.live.value in s.objects && |s.sent| > 0
                                 && s.sent[|s.sent| - 1] == OwnAsk(s.id, s.objects[s.live.value])
                                 && s.objects[s.live.value].kind != KindNone)
  {
    BeginInv();
    RunKeeps(BEGIN, steps);
    hide Converging, RecordCurrent, HearAll, Serial;
    SerialsRiseIff(Run(BEGIN, steps).shim.sent);
    SerialsDifferIff(Run(BEGIN, steps).shim.sent);
  }

  lemma SerialsRiseIff(sent: seq<Ask>)
    requires forall i | 0 <= i < |sent| :: sent[i].id == i + 1
    ensures (forall i, j | 0 <= i < j < |sent| :: Serial(sent[i].id) < Serial(sent[j].id)) <==> |sent| < U32_LIMIT
  {
    if |sent| >= U32_LIMIT {
      assert Serial(sent[0].id) == 1 && Serial(sent[U32_LIMIT - 1].id) == 0;
    }
  }

  lemma SerialsDifferIff(sent: seq<Ask>)
    requires forall i | 0 <= i < |sent| :: sent[i].id == i + 1
    ensures (forall i, j | 0 <= i < j < |sent| :: Serial(sent[i].id) != Serial(sent[j].id)) <==> |sent| <= U32_LIMIT
  {
    if |sent| > U32_LIMIT {
      assert Serial(sent[0].id) == Serial(sent[U32_LIMIT].id);
    } else {
      forall i, j | 0 <= i < j < |sent| ensures Serial(sent[i].id) != Serial(sent[j].id) {
        SerialNames(i + 1, j + 1);
      }
    }
  }

  /** A run that mints fewer than 2^32 asks hears every verdict in time. */
  lemma ShortRunsAreTimely(sys: System, step: Step)
    requires Inv(sys) && sys.shim.nextId <= U32_LIMIT
    ensures Timely(sys, step)
  {
  }

  /** Exactly which withdrawals end the live record: those whose ask lies a
    * multiple of 2^32 mints away, so only an untimely one can be mistaken. */
  lemma WithdrawalMatchesIff(s: Shim, v: nat)
    requires LiveExists(s) && s.live.Some? && v <= s.id
    ensures HandleState(s, Verdict(v, Withdrawn)).live != s.live <==> (s.id - v) % U32_LIMIT == 0
  {
  }

  // ---- settling ---------------------------------------------------------------------

  /** Messages in flight, weighted by what each may still provoke. */
  function Pressure(sys: System): nat
    requires sys.received <= |sys.shim.sent| && sys.heard <= |sys.said|
  {
    2 * (|sys.shim.sent| - sys.received) + (|sys.said| - sys.heard) + (if sys.shim.live.Some? then 2 else 0)
  }

  /** Each delivery lowers the pressure, so deliveries alone come to an end. */
  lemma DeliveryReleases(sys: System, step: Step)
    requires Inv(sys) && Enabled(sys, step) && (step.ShimHears? || step.CoreHears?)
    ensures var t := Next(sys, step);
            t.received <= |t.shim.sent| && t.heard <= |t.said| && Pressure(t) < Pressure(sys)
  {
  }

  /** Every ask still to be answered was minted less than 2^32 asks ago, with
    * one to spare for a withdrawal. */
  ghost predicate Recent(sys: System, oldest: nat)
  {
    && oldest <= sys.received && |sys.shim.sent| + (if sys.shim.live.Some? then 2 else 1) <= oldest + U32_LIMIT
    && (forall i | sys.heard <= i < |sys.said| :: sys.said[i].id >= oldest)
  }

  /** Deliver everything, asks first. */
  ghost function Settle(sys: System): (steps: seq<Step>)
    requires Inv(sys)
    decreases Pressure(sys)
  {
    if sys.received < |sys.shim.sent| then
      DeliveryReleases(sys, CoreHears);
      CoreHearsKeeps(sys);
      [CoreHears] + Settle(Next(sys, CoreHears))
    else if sys.heard < |sys.said| && Timely(sys, ShimHears) then
      DeliveryReleases(sys, ShimHears);
      ShimHearsKeeps(sys);
      [ShimHears] + Settle(Next(sys, ShimHears))
    else []
  }

  lemma StaysRecent(sys: System, step: Step, oldest: nat)
    requires Inv(sys) && Recent(sys, oldest) && Enabled(sys, step) && (step.ShimHears? || step.CoreHears?)
    ensures Timely(sys, step) && Recent(Next(sys, step), oldest)
  {
    hide HearAll, Converging, CoreBelief;
  }

  /** Once the app and the core pause, delivering what is in flight brings the
    * two ends to agreement. */
  lemma {:induction false} SettlesInAgreement(sys: System, oldest: nat)
    requires Inv(sys) && Recent(sys, oldest)
    ensures Legal(sys, Settle(sys))
    ensures Quiescent(Run(sys, Settle(sys))) && Agreed(Run(sys, Settle(sys)))
    decreases Pressure(sys)
  {
    hide Recent, Converging;
    if sys.received < |sys.shim.sent| {
      DeliveryReleases(sys, CoreHears);
      CoreHearsKeeps(sys);
      StaysRecent(sys, CoreHears, oldest);
      SettlesInAgreement(Next(sys, CoreHears), oldest);
    } else if sys.heard < |sys.said| {
      DeliveryReleases(sys, ShimHears);
      StaysRecent(sys, ShimHears, oldest);
      ShimHearsKeeps(sys);
      SettlesInAgreement(Next(sys, ShimHears), oldest);
    } else {
      QuietAgrees(sys);
    }
  }
}
