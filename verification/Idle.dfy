/** Idle inhibition: the shim counts the app's inhibitors and tells the core only the
  * edges, so that no leak can keep the panel awake. */
module Idle {

  /** An `idle_inhibit` request: the surface named and the state asked for. */
  datatype Ask = Held(surface: nat) | Released

  const SURFACE_ID := 2

  /** The relay, the inhibitors it listens to, and what it has told the core. */
  datatype Relay = Relay(live: nat, announced: bool, wired: bool, watched: set<nat>, sent: seq<Ask>)

  function Fresh(managerMade: bool): Relay
  {
    Relay(0, false, managerMade, {}, [])
  }

  function Announce(r: Relay): Relay
  {
    if (r.live > 0) == r.announced then r
    else r.(announced := r.live > 0, sent := r.sent + [if r.live > 0 then Held(SURFACE_ID) else Released])
  }

  function Appear(r: Relay, w: nat, tracked: bool): Relay
  {
    if tracked then Announce(r.(live := r.live + 1, watched := r.watched + {w})) else r
  }

  function Vanish(r: Relay, w: nat): Relay
  {
    Announce(r.(live := if r.live > 0 then r.live - 1 else 0, watched := r.watched - {w}))
  }

  function Finish(r: Relay): Relay
  {
    Announce(r.(wired := false, live := 0))
  }

  /** The state the C file keeps, updated in place. */
  class Watcher {
    var live: nat
    var announced: bool
    var wired: bool
    var watched: set<nat>
    var sent: seq<Ask>

    function View(): Relay
      reads this
    {
      Relay(live, announced, wired, watched, sent)
    }

    constructor (managerMade: bool)
      ensures View() == Fresh(managerMade)
    {
      live, announced, wired, watched, sent := 0, false, managerMade, {}, [];
    }

    method Tell()
      modifies this
      ensures View() == Announce(old(View()))
    {
      var want := live > 0;
      if want == announced {
        return;
      }
      announced := want;
      if want {
        sent := sent + [Held(SURFACE_ID)];
      } else {
        sent := sent + [Released];
      }
    }

    /** `on_new_inhibitor`; `tracked` is whether memory for its watcher was found. */
    method NewInhibitor(w: nat, tracked: bool)
      requires wired && w !in watched
      modifies this
      ensures View() == Appear(old(View()), w, tracked)
    {
      if !tracked {
        return;
      }
      watched := watched + {w};
      live := live + 1;
      Tell();
    }

    method InhibitorDestroyed(w: nat)
      requires w in watched
      modifies this
      ensures View() == Vanish(old(View()), w)
    {
      watched := watched - {w};
      if live > 0 {
        live := live - 1;
      }
      Tell();
    }

    method TearDown()
      modifies this
      ensures View() == Finish(old(View()))
    {
      if wired {
        wired := false;
      }
      live := 0;
      Tell();
    }
  }

  // ---- whole lives --------------------------------------------------------------------

  datatype Event = New(w: nat, tracked: bool) | Gone(w: nat) | TornDown

  predicate Possible(r: Relay, e: Event)
  {
    match e
    case New(w, _) => r.wired && w !in r.watched
    case Gone(w) => w in r.watched
    case TornDown => true
  }

  function Handle(r: Relay, e: Event): Relay
  {
    match e
    case New(w, tracked) => Appear(r, w, tracked)
    case Gone(w) => Vanish(r, w)
    case TornDown => Finish(r)
  }

  predicate PossibleRun(r: Relay, run: seq<Event>)
    decreases |run|
  {
    run == [] || (Possible(r, run[0]) && PossibleRun(Handle(r, run[0]), run[1..]))
  }

  function After(r: Relay, run: seq<Event>): Relay
    decreases |run|
  {
    if run == [] then r else After(Handle(r, run[0]), run[1..])
  }

  /** Asks strictly alternate, starting with a hold, each naming what it must. */
  predicate Alternating(sent: seq<Ask>)
  {
    forall i | 0 <= i < |sent| :: sent[i] == if i % 2 == 0 then Held(SURFACE_ID) else Released
  }

  /** The core has been told to hold, and not since to release. */
  predicate Holding(sent: seq<Ask>)
  {
    sent != [] && sent[|sent| - 1].Held?
  }

  ghost predicate Inv(r: Relay, torn: bool)
  {
    && r.live == (if torn then 0 else |r.watched|)
    && (torn ==> !r.wired)
    && r.announced == (r.live > 0) == (|r.sent| % 2 == 1)
    && Alternating(r.sent)
  }

  lemma EventKeeps(r: Relay, e: Event, torn: bool)
    requires Inv(r, torn) && Possible(r, e)
    ensures Inv(Handle(r, e), torn || e.TornDown?)
    ensures torn ==> Handle(r, e).sent == r.sent
  {
  }

  lemma {:induction false} RunKeeps(r: Relay, run: seq<Event>, torn: bool)
    requires Inv(r, torn) && PossibleRun(r, run)
    ensures Inv(After(r, run), torn || TornDown in run)
    ensures torn ==> After(r, run).sent == r.sent
    decreases |run|
  {
    if run != [] {
      EventKeeps(r, run[0], torn);
      RunKeeps(Handle(r, run[0]), run[1..], torn || run[0].TornDown?);
      assert run == [run[0]] + run[1..];
    }
  }

  /** Every run of the relay, from its creation: the asks alternate; before teardown the
    * core is told to hold exactly while some tracked inhibitor lives; after teardown it
    * is not told to hold, whatever inhibitors are left. */
  lemma EveryLife(managerMade: bool, run: seq<Event>)
    requires PossibleRun(Fresh(managerMade), run)
    ensures var r := After(Fresh(managerMade), run);
            && Alternating(r.sent)
            && (TornDown !in run ==> (Holding(r.sent) <==> r.watched != {}))
            && (TornDown in run ==> !Holding(r.sent))
  {
    var r := After(Fresh(managerMade), run);
    RunKeeps(Fresh(managerMade), run, false);
    HoldingIsParity(r.sent);
  }

  lemma HoldingIsParity(sent: seq<Ask>)
    requires Alternating(sent)
    ensures Holding(sent) <==> |sent| % 2 == 1
  {
  }

  /** Once torn down, every later run leaves the wire silent. */
  lemma {:induction false} SilentAfterTeardown(managerMade: bool, before: seq<Event>, after: seq<Event>)
    requires PossibleRun(Fresh(managerMade), before + [TornDown] + after)
    ensures After(Fresh(managerMade), before + [TornDown] + after).sent
         == After(Fresh(managerMade), before + [TornDown]).sent
  {
    var run := before + [TornDown];
    RunSplits(Fresh(managerMade), run, after);
    RunKeeps(Fresh(managerMade), run, false);
    assert run[|before|] == TornDown;
    RunKeeps(After(Fresh(managerMade), run), after, true);
  }

  lemma {:induction false} RunSplits(r: Relay, run: seq<Event>, more: seq<Event>)
    requires PossibleRun(r, run + more)
    ensures PossibleRun(r, run) && PossibleRun(After(r, run), more)
    ensures After(r, run + more) == After(After(r, run), more)
    decreases |run|
  {
    if run == [] {
      assert run + more == more;
    } else {
      assert (run + more)[1..] == run[1..] + more;
      RunSplits(Handle(r, run[0]), run[1..], more);
    }
  }
}
