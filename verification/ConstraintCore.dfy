/** The core's half of pointer constraints: one record per realm, a reconciler
  * that derives each record's state from live facts and reports transitions,
  * and the derived decision to hide the human's cursor sprite. */
module ConstraintCore {
  import opened Constraint
  import opened Options

  type Realm = string

  /** One realm's record. `state` is what the core believes now, `reported` the
    * last state its shim was told. */
  datatype Record = Record(id: nat, kind: Kind, lifetime: Lifetime, region: Region,
                           state: Status, reported: Option<Status>)

  // ---- one realm -----------------------------------------------------------

  datatype Ruling = Ruling(record: Option<Record>, verdicts: seq<Verdict>)

  /** Remove the record, answering under its own serial. */
  function Withdraw(record: Option<Record>): Ruling
  {
    match record
    case None => Ruling(None, [])
    case Some(r) => Ruling(None, [Verdict(r.id, Withdrawn)])
  }

  /** Record, replace or withdraw. */
  function Judge(record: Option<Record>, ask: Ask): Ruling
  {
    if ask.kind == KindNone then Withdraw(record)
    else if ask.surface.None? then Ruling(record, [Verdict(ask.id, Refused)])
    else
      Ruling(Some(Record(ask.id, ask.kind, ask.lifetime, ask.region, Inactive, None)),
             if record.Some? then [Verdict(record.value.id, Superseded)] else [])
  }

  /** A oneshot that was active and is not any more ends here. */
  predicate EndsOneshot(r: Record, now: Status)
  {
    r.lifetime == Oneshot && r.reported == Some(Active) && now != Active
  }

  /** The record brought up to date with `now`, before removals. */
  function Refresh(r: Record, now: Status): Record
  {
    if r.reported == Some(now) then r.(state := now)
    else r.(state := now, reported := Some(if EndsOneshot(r, now) then Withdrawn else now))
  }

  /** Level-triggered and edge-reported: a verdict goes out only on a change. */
  function Reconcile(record: Option<Record>, now: Status): Ruling
  {
    match record
    case None => Ruling(None, [])
    case Some(r) =>
      if r.reported == Some(now) then Ruling(Some(Refresh(r, now)), [])
      else if EndsOneshot(r, now) then Ruling(None, [Verdict(r.id, Withdrawn)])
      else Ruling(Some(Refresh(r, now)), [Verdict(r.id, now)])
  }

  /** A record between rounds: what it believes is what it has reported. */
  predicate Settled(r: Record)
  {
    match r.reported
    case None => r.state == Inactive
    case Some(told) => told == r.state && (told == Active || told == Inactive)
  }

  lemma StaysSettled(record: Option<Record>, ask: Ask, now: Status)
    requires record.Some? ==> Settled(record.value)
    requires now == Active || now == Inactive
    ensures Judge(record, ask).record.Some? ==> Settled(Judge(record, ask).record.value)
    ensures Reconcile(record, now).record.Some? ==> Settled(Reconcile(record, now).record.value)
  {
  }

  /** An ask that names no surface is refused under its own serial, and whatever the
    * realm held before still stands: no other ask is ever refused. */
  lemma RefusedIff(record: Option<Record>, ask: Ask)
    ensures var n := Judge(record, ask);
            && (Verdict(ask.id, Refused) in n.verdicts <==> ask.kind != KindNone && ask.surface.None?)
            && (Verdict(ask.id, Refused) in n.verdicts ==> n.record == record && |n.verdicts| == 1)
  {
  }

  // ---- live facts ------------------------------------------------------------

  /** `PresentationGates`, with the realm view's placement of the surface. */
  datatype Gates = Gates(focused: Option<Realm>, overlayUp: bool, active: bool, dark: bool,
                         surface: Option<(nat, nat)>, placement: (real, real), pointer: Option<(real, real)>)

  predicate Inside(sx: real, sy: real, surface: (nat, nat))
  {
    0.0 <= sx < surface.0 as real && 0.0 <= sy < surface.1 as real
  }

  predicate Contains(region: Region, sx: real, sy: real)
  {
    && region.x as real <= sx < (region.x + region.width) as real
    && region.y as real <= sy < (region.y + region.height) as real
  }

  function LiveState(g: Gates, realm: Realm, r: Record): (s: Status)
    ensures s == Active || s == Inactive
  {
    if g.focused != Some(realm) || !g.active || g.dark || g.overlayUp then Inactive
    else if g.surface.None? || g.pointer.None? then Inactive
    else
      var sx, sy := g.pointer.value.0 - g.placement.0, g.pointer.value.1 - g.placement.1;
      if !Inside(sx, sy, g.surface.value) then Inactive
      else if !(r.region.width == 0 && r.region.height == 0) && !Contains(r.region, sx, sy) then Inactive
      else Active
  }

  /** What it takes for a constraint to be in force, said on the screen: the realm
    * has the focus, the output is active and lit with nothing over it, and the
    * human's pointer is on the realm's surface and, unless the region is the whole
    * surface, inside the region placed on it. */
  predicate InForce(g: Gates, realm: Realm, region: Region)
  {
    && g.focused == Some(realm) && g.active && !g.dark && !g.overlayUp && g.surface.Some? && g.pointer.Some?
    && var left, top := g.placement.0, g.placement.1;
       var x, y := g.pointer.value.0, g.pointer.value.1;
       && left <= x < left + g.surface.value.0 as real && top <= y < top + g.surface.value.1 as real
       && ((region.width == 0 && region.height == 0)
           || (left + region.x as real <= x < left + (region.x + region.width) as real
               && top + region.y as real <= y < top + (region.y + region.height) as real))
  }

  /** The chain of early returns finds exactly that. */
  lemma InForceIff(g: Gates, realm: Realm, r: Record)
    ensures LiveState(g, realm, r) == Active <==> InForce(g, realm, r.region)
  {
  }

  // ---- regions ----------------------------------------------------------------

  /** What of an app's region lies on its surface: nothing, or a bounding box. */
  datatype Effective = Nothing | Box(x1: int, y1: int, x2: int, y2: int)

  /** `resolve_region` */
  function Resolve(e: Effective): Region
  {
    if e.Nothing? || e.x2 - e.x1 <= 0 || e.y2 - e.y1 <= 0 then Region(0, 0, 0, 0)
    else Region(e.x1, e.y1, e.x2 - e.x1, e.y2 - e.y1)
  }

  /** The pointer is where the app wanted it. */
  predicate OnRegion(g: Gates, e: Effective)
  {
    && e.Box? && g.pointer.Some?
    && g.placement.0 + e.x1 as real <= g.pointer.value.0 < g.placement.0 + e.x2 as real
    && g.placement.1 + e.y1 as real <= g.pointer.value.1 < g.placement.1 + e.y2 as real
  }

  /** A constraint is in force only with the pointer inside the app's region, under
    * all circumstances, exactly when that region is not empty: an empty one is sent
    * as the rectangle that the core reads as the whole surface. */
  lemma RegionKeptIff(realm: Realm, e: Effective)
    ensures (forall g: Gates | InForce(g, realm, Resolve(e)) :: OnRegion(g, e)) <==> e.Box? && e.x1 < e.x2 && e.y1 < e.y2
  {
    if !(e.Box? && e.x1 < e.x2 && e.y1 < e.y2) {
      var g := Gates(Some(realm), false, true, false, Some((1, 1)), (0.0, 0.0), Some((0.0, 0.0)));
      assert InForce(g, realm, Resolve(e)) && !OnRegion(g, e);
    }
  }

  /** Whether the human's cursor is left out of the frame being composed. */
  predicate HidesSprite(records: map<Realm, Record>, g: Gates)
  {
    && g.focused.Some? && g.focused.value in records
    && records[g.focused.value].state == Active
    && LiveState(g, g.focused.value, records[g.focused.value]) == Active
  }

  // ---- the table ---------------------------------------------------------------

  datatype Owed = Owed(realm: Realm, verdict: Verdict)

  function OwedTo(owed: seq<Owed>, realm: Realm): seq<Verdict>
  {
    if owed == [] then []
    else OwedTo(owed[..|owed| - 1], realm)
         + (if owed[|owed| - 1].realm == realm then [owed[|owed| - 1].verdict] else [])
  }

  function Lookup(records: map<Realm, Record>, realm: Realm): Option<Record>
  {
    if realm in records then Some(records[realm]) else None
  }

  lemma OwedToSnoc(owed: seq<Owed>, o: Owed, realm: Realm)
    ensures OwedTo(owed + [o], realm) == OwedTo(owed, realm) + (if o.realm == realm then [o.verdict] else [])
  {
  }

  /** No gates could tell the two tables apart. */
  ghost predicate SameSprite(a: map<Realm, Record>, b: map<Realm, Record>)
  {
    forall g :: HidesSprite(a, g) == HidesSprite(b, g)
  }

  lemma SameSpriteItself(a: map<Realm, Record>)
    ensures SameSprite(a, a)
  {
  }

  /** Verdicts put in the envelope of one realm. */
  function Address(realm: Realm, report: seq<Verdict>): (owed: seq<Owed>)
  {
    seq(|report|, i requires 0 <= i < |report| => Owed(realm, report[i]))
  }

  lemma OwedToReport(owed: seq<Owed>, realm: Realm, report: seq<Verdict>, x: Realm)
    requires |report| <= 1
    ensures OwedTo(owed + Address(realm, report), x) == OwedTo(owed, x) + (if x == realm then report else [])
  {
    if report == [] {
      assert owed + Address(realm, report) == owed;
    } else {
      assert Address(realm, report) == [Owed(realm, report[0])] && report == [report[0]];
      OwedToSnoc(owed, Owed(realm, report[0]), x);
    }
  }

  /** How far a dispatch round has come with one realm. */
  ghost predicate Progress(start: map<Realm, Record>, records: map<Realm, Record>, todo: set<Realm>, done: set<Realm>,
                           owed: seq<Owed>, g: Gates, realm: Realm)
    requires realm in start && realm in records
  {
    var r, now := start[realm], LiveState(g, realm, start[realm]);
    if realm in todo then records[realm] == r && realm !in done && OwedTo(owed, realm) == []
    else
      && records[realm] == Refresh(r, now) && (realm in done <==> EndsOneshot(r, now))
      && OwedTo(owed, realm) == Reconcile(Some(r), now).verdicts
  }

  ghost predicate AllProgress(start: map<Realm, Record>, records: map<Realm, Record>, todo: set<Realm>, done: set<Realm>,
                              owed: seq<Owed>, g: Gates)
  {
    && todo <= start.Keys == records.Keys && done <= start.Keys - todo
    && (forall realm | realm in start :: Progress(start, records, todo, done, owed, g, realm))
    && (forall realm | realm !in start :: OwedTo(owed, realm) == [])
  }

  lemma RoundStep(start: map<Realm, Record>, records: map<Realm, Record>, todo: set<Realm>, done: set<Realm>,
                  owed: seq<Owed>, g: Gates, realm: Realm)
    requires AllProgress(start, records, todo, done, owed, g) && realm in todo
    ensures realm in records && records[realm] == start[realm]
    ensures var r, now := start[realm], LiveState(g, realm, start[realm]);
            AllProgress(start, records[realm := Refresh(r, now)], todo - {realm},
                        if EndsOneshot(r, now) then done + {realm} else done,
                        owed + Address(realm, Reconcile(Some(r), now).verdicts), g)
  {
    hide LiveState, Reconcile, OwedTo, Refresh, EndsOneshot, Address;
    assert Progress(start, records, todo, done, owed, g, realm);
    var r, now := start[realm], LiveState(g, realm, start[realm]);
    var report := Reconcile(Some(r), now).verdicts;
    OneVerdict(Some(r), now);
    forall x ensures OwedTo(owed + Address(realm, report), x) == OwedTo(owed, x) + (if x == realm then report else []) {
      OwedToReport(owed, realm, report, x);
    }
    assert OwedTo(owed, realm) == [] && [] + report == report;
    forall x | x in start && x != realm ensures Progress(start, records, todo, done, owed, g, x) {
    }
    forall x | x !in start ensures OwedTo(owed, x) == [] {
    }
  }

  lemma RoundBegin(start: map<Realm, Record>, g: Gates)
    ensures AllProgress(start, start, start.Keys, {}, [], g)
  {
  }

  lemma RoundKeys(start: map<Realm, Record>, records: map<Realm, Record>, todo: set<Realm>, done: set<Realm>,
                  owed: seq<Owed>, g: Gates)
    requires AllProgress(start, records, todo, done, owed, g)
    ensures todo <= start.Keys == records.Keys
  {
  }

  lemma OneVerdict(record: Option<Record>, now: Status)
    ensures |Reconcile(record, now).verdicts| <= 1
  {
  }

  /** What one dispatch round owes every realm. */
  ghost predicate Reconciled(start: map<Realm, Record>, records: map<Realm, Record>, owed: seq<Owed>, g: Gates)
  {
    forall realm ::
      var was := Lookup(start, realm);
      var now := if was.Some? then LiveState(g, realm, was.value) else Inactive;
      Lookup(records, realm) == Reconcile(was, now).record && OwedTo(owed, realm) == Reconcile(was, now).verdicts
  }

  /** The same in plain terms: every record is active exactly when it is in force,
    * has been told so, and is otherwise as it was; a oneshot that was told active
    * and no longer is in force is gone; and a realm hears exactly of a change. */
  ghost predicate RoundMeans(start: map<Realm, Record>, records: map<Realm, Record>, owed: seq<Owed>, g: Gates)
  {
    && records.Keys <= start.Keys
    && (forall realm | realm !in start :: OwedTo(owed, realm) == [])
    && (forall realm | realm in start ::
          var was := start[realm];
          var now := if InForce(g, realm, was.region) then Active else Inactive;
          var over := was.lifetime == Oneshot && was.reported == Some(Active) && now == Inactive;
          && (realm in records <==> !over)
          && (realm in records ==> records[realm] == Record(was.id, was.kind, was.lifetime, was.region, now, Some(now)))
          && OwedTo(owed, realm) == if was.reported == Some(now) then []
                                    else [Verdict(was.id, if over then Withdrawn else now)])
  }

  lemma ReconciledMeans(start: map<Realm, Record>, records: map<Realm, Record>, owed: seq<Owed>, g: Gates)
    requires Reconciled(start, records, owed, g)
    ensures RoundMeans(start, records, owed, g)
  {
    hide LiveState, InForce, OwedTo;
    forall realm ensures realm in records ==> realm in start {
      assert Lookup(records, realm).Some? <==> realm in records;
    }
    forall realm | realm !in start ensures OwedTo(owed, realm) == [] {
      assert Lookup(start, realm) == None;
    }
    forall realm | realm in start
      ensures var was := start[realm];
              var now := if InForce(g, realm, was.region) then Active else Inactive;
              var over := was.lifetime == Oneshot && was.reported == Some(Active) && now == Inactive;
              && (realm in records <==> !over)
              && (realm in records ==> records[realm] == Record(was.id, was.kind, was.lifetime, was.region, now, Some(now)))
              && OwedTo(owed, realm) == if was.reported == Some(now) then []
                                        else [Verdict(was.id, if over then Withdrawn else now)]
    {
      InForceIff(g, realm, start[realm]);
      assert Lookup(start, realm) == Some(start[realm]);
      assert realm in records ==> Lookup(records, realm) == Some(records[realm]);
    }
  }

  lemma RoundDone(start: map<Realm, Record>, records: map<Realm, Record>, done: set<Realm>, owed: seq<Owed>, g: Gates)
    requires AllProgress(start, records, {}, done, owed, g)
    requires forall realm | realm in start :: Settled(start[realm])
    ensures Reconciled(start, records - done, owed, g)
    ensures forall realm | realm in records - done :: Settled(records[realm])
  {
    hide LiveState, OwedTo;
    forall realm
      ensures var was := Lookup(start, realm);
              var now := if was.Some? then LiveState(g, realm, was.value) else Inactive;
              && Lookup(records - done, realm) == Reconcile(was, now).record
              && OwedTo(owed, realm) == Reconcile(was, now).verdicts
      ensures realm in records - done ==> Settled(records[realm])
    {
      if realm in start {
        assert Progress(start, records, {}, done, owed, g, realm);
      }
    }
  }

  /** `PointerConstraintTable` */
  class Table {
    var records: map<Realm, Record>
    var repaintOwed: bool

    ghost predicate Valid()
      reads this
    {
      forall realm | realm in records :: Settled(records[realm])
    }

    constructor ()
      ensures Valid() && records == map[] && !repaintOwed
    {
      records, repaintOwed := map[], false;
    }

    /** One realm's ask: its record and its verdicts, and nobody else's. */
    method AskFrom(realm: Realm, ask: Ask) returns (owed: seq<Owed>)
      requires Valid()
      modifies this
      ensures Valid()
      ensures var was := Lookup(old(records), realm);
              Lookup(records, realm) == Judge(was, ask).record && OwedTo(owed, realm) == Judge(was, ask).verdicts
      ensures forall other | other != realm :: Lookup(records, other) == Lookup(old(records), other) && OwedTo(owed, other) == []
      ensures old(repaintOwed) ==> repaintOwed
      ensures !repaintOwed ==> SameSprite(old(records), records)
    {
      if ask.kind == KindNone {
        owed := WithdrawFrom(realm);
        return;
      }
      if ask.surface.None? {
        return [Owed(realm, Verdict(ask.id, Refused))];
      }
      owed := if realm in records then [Owed(realm, Verdict(records[realm].id, Superseded))] else [];
      repaintOwed := true;
      records := records[realm := Record(ask.id, ask.kind, ask.lifetime, ask.region, Inactive, None)];
    }

    /** The app withdrew, or the seat paused. */
    method WithdrawFrom(realm: Realm) returns (owed: seq<Owed>)
      requires Valid()
      modifies this
      ensures Valid()
      ensures var was := Lookup(old(records), realm);
              Lookup(records, realm) == None && OwedTo(owed, realm) == Withdraw(was).verdicts
      ensures forall other | other != realm :: Lookup(records, other) == Lookup(old(records), other) && OwedTo(owed, other) == []
      ensures old(repaintOwed) ==> repaintOwed
      ensures !repaintOwed ==> SameSprite(old(records), records)
    {
      if realm !in records {
        return [];
      }
      owed := [Owed(realm, Verdict(records[realm].id, Withdrawn))];
      records := records - {realm};
      repaintOwed := true;
    }

    /** The dead-man chord: every realm at once. */
    method WithdrawAll() returns (owed: seq<Owed>)
      requires Valid()
      modifies this
      ensures Valid() && records == map[] && repaintOwed
      ensures forall realm :: OwedTo(owed, realm) == Withdraw(Lookup(old(records), realm)).verdicts
    {
      repaintOwed := true;
      owed := [];
      var todo := records.Keys;
      while todo != {}
        invariant todo <= records.Keys && records == old(records) && repaintOwed
        invariant forall realm ::
          OwedTo(owed, realm) == if realm in todo then [] else Withdraw(Lookup(records, realm)).verdicts
      {
        var realm :| realm in todo;
        var o := Owed(realm, Verdict(records[realm].id, Withdrawn));
        forall r ensures OwedTo(owed + [o], r) == OwedTo(owed, r) + (if o.realm == r then [o.verdict] else []) {
          OwedToSnoc(owed, o, r);
        }
        owed := owed + [o];
        todo := todo - {realm};
      }
      records := map[];
    }

    /** Refresh one record and report its transition. */
    method RefreshOne(realm: Realm, now: Status) returns (report: seq<Verdict>, ends: bool)
      requires realm in records && Settled(records[realm])
      modifies this
      ensures records == old(records)[realm := Refresh(old(records)[realm], now)]
      ensures report == Reconcile(Some(old(records)[realm]), now).verdicts && ends == EndsOneshot(old(records)[realm], now)
      ensures repaintOwed == (old(repaintOwed) || report != [])
      ensures report == [] ==> records == old(records) && !ends
    {
      var r := records[realm];
      records := records[realm := Refresh(r, now)];
      ends := EndsOneshot(r, now);
      if r.reported == Some(now) {
        return [], ends;
      }
      repaintOwed := true;
      return [Verdict(r.id, if ends then Withdrawn else now)], ends;
    }

    /** One dispatch round: every record refreshed from live facts, transitions
      * reported, ended oneshots removed. */
    method ReconcileAll(g: Gates) returns (owed: seq<Owed>)
      requires Valid()
      modifies this
      ensures Valid()
      ensures Reconciled(old(records), records, owed, g) && RoundMeans(old(records), records, owed, g)
      ensures old(repaintOwed) ==> repaintOwed
      ensures !repaintOwed ==> SameSprite(old(records), records)
    {
      hide LiveState, SameSprite, Progress, AllProgress, Reconciled, RoundMeans, Refresh, EndsOneshot, Reconcile;
      owed := [];
      var done: set<Realm> := {};
      var todo := records.Keys;
      ghost var start := records;
      RoundBegin(start, g);
      while todo != {}
        invariant AllProgress(start, records, todo, done, owed, g)
        invariant old(repaintOwed) ==> repaintOwed
        invariant !repaintOwed ==> records == start && done == {}
      {
        var realm :| realm in todo;
        RoundStep(start, records, todo, done, owed, g, realm);
        assert realm in start && Settled(start[realm]) by {
          RoundKeys(start, records, todo, done, owed, g);
        }
        var report, ends := RefreshOne(realm, LiveState(g, realm, records[realm]));
        todo := todo - {realm};
        done := if ends then done + {realm} else done;
        owed := owed + Address(realm, report);
      }
      SameSpriteItself(start);
      RoundDone(start, records, done, owed, g);
      records := records - done;
      ReconciledMeans(start, records, owed, g);
      assert !repaintOwed ==> records == start;
    }

    /** The realm or its shim died: silent. */
    method ForgetRealm(realm: Realm) returns (had: bool)
      requires Valid()
      modifies this
      ensures Valid() && had == (realm in old(records)) && records == old(records) - {realm}
      ensures old(repaintOwed) || had ==> repaintOwed
      ensures !repaintOwed ==> SameSprite(old(records), records)
    {
      had := realm in records;
      records := records - {realm};
      if had {
        repaintOwed := true;
      }
    }
  }

  /** The sprite is hidden exactly when the focused realm's record is active and the
    * constraint is in force on the screen right now. */
  lemma SpriteNeedsEverything(records: map<Realm, Record>, g: Gates)
    ensures HidesSprite(records, g)
       <==> && g.focused.Some? && g.focused.value in records && records[g.focused.value].state == Active
            && InForce(g, g.focused.value, records[g.focused.value].region)
  {
    hide LiveState, InForce;
    if g.focused.Some? && g.focused.value in records {
      InForceIff(g, g.focused.value, records[g.focused.value]);
    }
  }

  /** After a round the sprite and the wire agree: it is hidden exactly when the
    * focused realm's shim was last told `active`, and no other realm's was. */
  lemma SpriteIffReported(start: map<Realm, Record>, records: map<Realm, Record>, owed: seq<Owed>, g: Gates)
    requires Reconciled(start, records, owed, g)
    ensures HidesSprite(records, g)
       <==> g.focused.Some? && g.focused.value in records && records[g.focused.value].reported == Some(Active)
    ensures forall realm | realm in records && records[realm].reported == Some(Active) :: g.focused == Some(realm)
  {
    forall realm | realm in records
      ensures records[realm].state == LiveState(g, realm, records[realm]) && records[realm].reported == Some(records[realm].state)
    {
      assert Lookup(records, realm) == Some(records[realm]);
      assert realm in start;
      var was := start[realm];
      assert Lookup(start, realm) == Some(was);
      assert records[realm] == Refresh(was, LiveState(g, realm, was));
      assert LiveState(g, realm, records[realm]) == LiveState(g, realm, was);
    }
  }
}
