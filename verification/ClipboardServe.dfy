/** Serving the core's slot to the app: outgoing transfers with a cap, each with
  * its own copy of the bytes, drained by a client at its own pace. */
module ClipboardServe {
  import opened Bytes

  const MAX_TRANSFERS: nat := 8

  /** One outgoing transfer: its copy, and how much of it has been written. */
  datatype Transfer = Transfer(bytes: seq<Byte>, off: nat)

  /** What one `write` came back with; `Failed` covers every error and zero. */
  datatype Outcome = Wrote(n: nat) | Interrupted | WouldBlock | Failed

  /** Where serving a paste stops, once it is under the cap. */
  datatype Setup = NoMemory | NoWatch | Watching

  /** The counter the cap is tested against, the transfers really alive, and the
    * histories: the bytes each client was offered and has received. */
  datatype Server = Server(counter: nat, live: map<nat, Transfer>, offered: seq<seq<Byte>>,
                           got: map<nat, seq<Byte>>, watchFailures: nat)

  const NONE := Server(0, map[], [], map[], 0)

  /** The decrement every freed transfer makes, also one never counted. */
  function Uncount(s: Server): Server
  {
    if s.counter > 0 then s.(counter := s.counter - 1) else s
  }

  function Free(s: Server, k: nat): Server
  {
    Uncount(s.(live := s.live - {k}))
  }

  /** `clip_source_send` for a source holding `bytes`. */
  function Send(s: Server, ours: bool, bytes: seq<Byte>, setup: Setup): Server
  {
    if !ours || s.counter >= MAX_TRANSFERS then s
    else
      match setup
      case NoMemory => s
      case NoWatch => Uncount(s).(watchFailures := s.watchFailures + 1)
      case Watching =>
        var k := |s.offered|;
        s.(counter := s.counter + 1, live := s.live[k := Transfer(bytes, 0)],
           offered := s.offered + [bytes], got := s.got[k := []])
  }

  /** The client takes `n` more bytes. */
  function Advance(s: Server, k: nat, n: nat): Server
    requires k in s.live && k in s.got && s.live[k].off + n <= |s.live[k].bytes|
  {
    var t := s.live[k];
    s.(live := s.live[k := t.(off := t.off + n)], got := s.got[k := s.got[k] + t.bytes[t.off..t.off + n]])
  }

  /** `transfer_writable`: write until done, refused or failed. */
  function Write(s: Server, k: nat, outcomes: seq<Outcome>): Server
    requires k in s.live && k in s.got && s.live[k].off <= |s.live[k].bytes|
    decreases |outcomes|
  {
    var t := s.live[k];
    if t.off == |t.bytes| then Free(s, k)
    else if outcomes == [] then s
    else
      match outcomes[0]
      case Wrote(n) =>
        var room := |t.bytes| - t.off;
        Write(Advance(s, k, if n <= room then n else room), k, outcomes[1..])
      case Interrupted => Write(s, k, outcomes[1..])
      case WouldBlock => s
      case Failed => Free(s, k)
  }

  datatype Event =
    | Pasted(ours: bool, bytes: seq<Byte>, setup: Setup)
    | Writable(k: nat, broken: bool, outcomes: seq<Outcome>)
    | TimedOut(k: nat)

  predicate CanHappen(s: Server, e: Event)
  {
    match e
    case Pasted(_, _, _) => true
    case Writable(k, _, _) => k in s.live
    case TimedOut(k) => k in s.live
  }

  predicate Shaped(s: Server)
  {
    forall k | k in s.live :: k in s.got && s.live[k].off <= |s.live[k].bytes|
  }

  function Next(s: Server, e: Event): Server
    requires Shaped(s) && CanHappen(s, e)
  {
    match e
    case Pasted(ours, bytes, setup) => Send(s, ours, bytes, setup)
    case Writable(k, broken, outcomes) => if broken then Free(s, k) else Write(s, k, outcomes)
    case TimedOut(k) => Free(s, k)
  }

  // ---- accounting ------------------------------------------------------------

  /** Transfers alive that the counter does not know of. */
  function Uncounted(s: Server): int
  {
    |s.live| - s.counter
  }

  ghost predicate Counted(s: Server)
  {
    s.counter <= MAX_TRANSFERS && 0 <= Uncounted(s) <= s.watchFailures
  }

  /** Each client has a prefix of its offer, and a transfer alive knows which. */
  ghost predicate Delivered(s: Server)
  {
    && (forall k | k in s.got :: k < |s.offered| && s.got[k] <= s.offered[k])
    && (forall k | k in s.live :: InStep(s, k))
  }

  ghost predicate InStep(s: Server, k: nat)
    requires k in s.live
  {
    && k in s.got && k < |s.offered| && s.live[k].bytes == s.offered[k]
    && s.live[k].off <= |s.offered[k]| && s.got[k] == s.offered[k][..s.live[k].off]
  }

  ghost predicate Sound(s: Server)
  {
    Counted(s) && Delivered(s)
  }

  lemma SoundShape(s: Server)
    requires Sound(s)
    ensures Shaped(s)
  {
  }

  lemma AddOne(m: map<nat, Transfer>, k: nat, t: Transfer)
    requires k !in m
    ensures |m[k := t]| == |m| + 1
  {
  }

  lemma FreeSound(s: Server, k: nat)
    requires Sound(s) && k in s.live
    ensures Sound(Free(s, k)) && Uncounted(Free(s, k)) <= Uncounted(s)
  {
  }

  lemma AdvanceSound(s: Server, k: nat, n: nat)
    requires Sound(s) && k in s.live && k in s.got && s.live[k].off + n <= |s.live[k].bytes|
    ensures Sound(Advance(s, k, n)) && Uncounted(Advance(s, k, n)) == Uncounted(s) && k in Advance(s, k, n).live
  {
    var t, r := s.live[k], Advance(s, k, n);
    assert InStep(s, k);
    assert r.live.Keys == s.live.Keys;
    assert t.bytes[..t.off] + t.bytes[t.off..t.off + n] == t.bytes[..t.off + n];
    forall j | j in r.live ensures InStep(r, j) {
      assert InStep(s, j);
    }
  }

  lemma {:induction false} WriteSound(s: Server, k: nat, outcomes: seq<Outcome>)
    requires Sound(s) && Shaped(s) && k in s.live
    ensures Sound(Write(s, k, outcomes)) && Uncounted(Write(s, k, outcomes)) <= Uncounted(s)
    decreases |outcomes|
  {
    hide Sound, Advance, Free, Uncounted;
    var t := s.live[k];
    FreeSound(s, k);
    if t.off < |t.bytes| && outcomes != [] {
      match outcomes[0]
      case Wrote(n) =>
        var m := if n <= |t.bytes| - t.off then n else |t.bytes| - t.off;
        AdvanceSound(s, k, m);
        SoundShape(Advance(s, k, m));
        WriteSound(Advance(s, k, m), k, outcomes[1..]);
      case Interrupted => WriteSound(s, k, outcomes[1..]);
      case _ =>
    }
  }

  lemma NewNumber(s: Server)
    requires Delivered(s)
    ensures forall k | k in s.live :: k < |s.offered|
  {
  }

  lemma SendSound(s: Server, ours: bool, bytes: seq<Byte>, setup: Setup)
    requires Sound(s)
    ensures var r := Send(s, ours, bytes, setup);
            && Sound(r)
            && Uncounted(r) - Uncounted(s) == (if ours && setup == NoWatch && 0 < s.counter < MAX_TRANSFERS then 1 else 0)
            && (ours && setup == Watching && s.counter < MAX_TRANSFERS ==> r.counter == s.counter + 1)
  {
    NewNumber(s);
    AddOne(s.live, |s.offered|, Transfer(bytes, 0));
    var r := Send(s, ours, bytes, setup);
    forall j | j in r.live ensures InStep(r, j) {
      assert j in s.live ==> InStep(s, j);
    }
  }

  lemma NextSound(s: Server, e: Event)
    requires Sound(s) && Shaped(s) && CanHappen(s, e)
    ensures Sound(Next(s, e)) && Shaped(Next(s, e))
  {
    hide Sound, Shaped;
    match e {
      case Pasted(ours, bytes, setup) => SendSound(s, ours, bytes, setup);
      case Writable(k, broken, outcomes) =>
        if broken {
          FreeSound(s, k);
        } else {
          WriteSound(s, k, outcomes);
        }
      case TimedOut(k) => FreeSound(s, k);
    }
    SoundShape(Next(s, e));
  }

  ghost predicate Legal(s: Server, events: seq<Event>)
    decreases |events|
  {
    events != [] ==> Shaped(s) && CanHappen(s, events[0]) && Legal(Next(s, events[0]), events[1..])
  }

  ghost function Run(s: Server, events: seq<Event>): Server
    requires Legal(s, events)
    decreases |events|
  {
    if events == [] then s else Run(Next(s, events[0]), events[1..])
  }

  lemma {:induction false} RunSound(s: Server, events: seq<Event>)
    requires Sound(s) && Shaped(s) && Legal(s, events)
    ensures Sound(Run(s, events))
    decreases |events|
  {
    if events != [] {
      NextSound(s, events[0]);
      RunSound(Next(s, events[0]), events[1..]);
    }
  }

  /** In every run the counter respects the cap and never exceeds the transfers
    * alive, which exceed it by at most one for each failed registration; and
    * every client has received a prefix of what it was offered. */
  lemma TransferAccounting(events: seq<Event>)
    requires Legal(NONE, events)
    ensures var s := Run(NONE, events);
            && s.counter <= MAX_TRANSFERS && s.counter <= |s.live| <= s.counter + s.watchFailures
            && (s.watchFailures == 0 ==> |s.live| == s.counter <= MAX_TRANSFERS)
            && (forall k | k in s.got :: k < |s.offered| && s.got[k] <= s.offered[k])
  {
    assert Sound(NONE);
    RunSound(NONE, events);
  }

  /** The count falls behind in exactly one way: a registration fails while the
    * counter is not zero. */
  lemma FallsBehindIff(s: Server, e: Event)
    requires Sound(s) && Shaped(s) && CanHappen(s, e)
    ensures Uncounted(Next(s, e)) > Uncounted(s)
       <==> e.Pasted? && e.ours && e.setup == NoWatch && 0 < s.counter < MAX_TRANSFERS
  {
    hide Sound, Uncounted, Write, Free, Send;
    match e
    case Pasted(ours, bytes, setup) => SendSound(s, ours, bytes, setup);
    case Writable(k, broken, outcomes) =>
      FreeSound(s, k);
      WriteSound(s, k, outcomes);
    case TimedOut(k) => FreeSound(s, k);
  }

  /** Who is served: a transfer of exactly the offered bytes starts for a paste of our
    * type, under the cap, once it is set up; otherwise none does, and no transfer
    * already alive is touched either way. */
  lemma PasteMeans(s: Server, ours: bool, bytes: seq<Byte>, setup: Setup)
    requires Sound(s)
    ensures var r := Send(s, ours, bytes, setup);
            && (r.live != s.live <==> ours && s.counter < MAX_TRANSFERS && setup == Watching)
            && (r.live != s.live ==> r.live == s.live[|s.offered| := Transfer(bytes, 0)] && r.offered == s.offered + [bytes])
            && (r.live == s.live ==> r.offered == s.offered)
  {
    NewNumber(s);
  }

  /** How a transfer ends: a broken pipe, a deadline or a failed write takes it away at
    * once, wherever it stood; otherwise it lives exactly until its client has all. */
  lemma {:induction false} WriteMeans(s: Server, k: nat, outcomes: seq<Outcome>)
    requires Sound(s) && Shaped(s) && k in s.live
    ensures var r := Write(s, k, outcomes);
            && k in r.got && r.offered == s.offered && k < |s.offered|
            && (k in r.live ==> |r.got[k]| < |s.offered[k]|)
            && (Failed in outcomes && WouldBlock !in outcomes ==> k !in r.live)
            && (Failed !in outcomes && k !in r.live ==> r.got[k] == s.offered[k])
    decreases |outcomes|
  {
    hide Sound, Advance;
    InStepOf(s, k);
    var t := s.live[k];
    if t.off < |t.bytes| && outcomes != [] {
      assert outcomes == [outcomes[0]] + outcomes[1..];
      match outcomes[0]
      case Wrote(n) =>
        var m := if n <= |t.bytes| - t.off then n else |t.bytes| - t.off;
        AdvanceSound(s, k, m);
        SoundShape(Advance(s, k, m));
        AdvanceKeeps(s, k, m);
        WriteMeans(Advance(s, k, m), k, outcomes[1..]);
      case Interrupted => WriteMeans(s, k, outcomes[1..]);
      case _ =>
    }
  }

  lemma InStepOf(s: Server, k: nat)
    requires Sound(s) && k in s.live
    ensures InStep(s, k)
  {
  }

  lemma AdvanceKeeps(s: Server, k: nat, n: nat)
    requires k in s.live && k in s.got && s.live[k].off + n <= |s.live[k].bytes|
    ensures Advance(s, k, n).offered == s.offered
  {
  }

  lemma EndedIsGone(s: Server, k: nat, outcomes: seq<Outcome>)
    requires Sound(s) && Shaped(s) && k in s.live
    ensures k !in Next(s, Writable(k, true, outcomes)).live && k !in Next(s, TimedOut(k)).live
    ensures var r := Next(s, Writable(k, false, outcomes));
            && (k in r.live ==> k in r.got && k < |s.offered| && |r.got[k]| < |s.offered[k]|)
            && (Failed in outcomes && WouldBlock !in outcomes ==> k !in r.live)
            && (Failed !in outcomes && k !in r.live ==> k in r.got && k < |s.offered| && r.got[k] == s.offered[k])
  {
    WriteMeans(s, k, outcomes);
  }

  /** Pastes that all start a transfer. */
  function Pastes(bytes: seq<Byte>, n: nat): (events: seq<Event>)
    ensures |events| == n
  {
    seq(n, _ => Pasted(true, bytes, Watching))
  }

  lemma {:induction false} PastesRun(s: Server, bytes: seq<Byte>, n: nat)
    requires Sound(s) && Shaped(s) && s.counter + n <= MAX_TRANSFERS
    ensures Legal(s, Pastes(bytes, n))
    ensures var r := Run(s, Pastes(bytes, n));
            Sound(r) && Shaped(r) && r.counter == s.counter + n && |r.live| == |s.live| + n
    decreases n
  {
    hide Sound, Send, Shaped, Write, Free;
    if n > 0 {
      var next := Next(s, Pasted(true, bytes, Watching));
      SendSound(s, true, bytes, Watching);
      SoundShape(next);
      PastesRun(next, bytes, n - 1);
      assert Pastes(bytes, n)[1..] == Pastes(bytes, n - 1);
    }
  }

  lemma {:induction false} RunJoins(s: Server, events: seq<Event>, more: seq<Event>)
    requires Legal(s, events) && Legal(Run(s, events), more)
    ensures Legal(s, events + more) && Run(s, events + more) == Run(Run(s, events), more)
    decreases |events|
  {
    if events == [] {
      assert events + more == more;
    } else {
      assert (events + more)[1..] == events[1..] + more;
      RunJoins(Next(s, events[0]), events[1..], more);
    }
  }

  lemma NoneSound()
    ensures Sound(NONE) && Shaped(NONE)
  {
  }

  /** Seven pastes, one whose registration fails, and two more: a run from wiring
    * that leaves nine transfers alive under a cap of eight. */
  lemma CapCanBeExceeded(bytes: seq<Byte>)
    ensures var events := Pastes(bytes, 7) + ([Pasted(true, bytes, NoWatch)] + Pastes(bytes, 2));
            Legal(NONE, events) && |Run(NONE, events).live| == 9 > MAX_TRANSFERS
  {
    hide Sound, Pastes, Shaped, Write, Free;
    NoneSound();
    PastesRun(NONE, bytes, 7);
    var seven := Run(NONE, Pastes(bytes, 7));
    var failing := Pasted(true, bytes, NoWatch);
    var failed := Next(seven, failing);
    SendSound(seven, true, bytes, NoWatch);
    SoundShape(failed);
    PastesRun(failed, bytes, 2);
    assert ([failing] + Pastes(bytes, 2))[1..] == Pastes(bytes, 2);
    RunJoins(NONE, Pastes(bytes, 7), [failing] + Pastes(bytes, 2));
  }

  // ---- the engine object -------------------------------------------------------

  /** The transfers of one shim. */
  class Engine {
    var counter: nat
    var live: map<nat, Transfer>
    var got: map<nat, seq<Byte>>
    ghost var offered: seq<seq<Byte>>
    ghost var watchFailures: nat
    var nextNumber: nat

    ghost predicate Valid()
      reads this
    {
      Shaped(View()) && nextNumber == |offered|
    }

    ghost function View(): Server
      reads this
    {
      Server(counter, live, offered, got, watchFailures)
    }

    constructor ()
      ensures Valid() && View() == NONE
    {
      counter, live, got, offered, watchFailures, nextNumber := 0, map[], map[], [], 0, 0;
    }

    /** `transfer_free` */
    method FreeTransfer(k: nat)
      requires Valid() && k in live
      modifies this
      ensures Valid() && View() == Free(old(View()), k)
    {
      live := live - {k};
      if counter > 0 {
        counter := counter - 1;
      }
    }

    /** `clip_source_send` */
    method Paste(ours: bool, bytes: seq<Byte>, setup: Setup)
      requires Valid()
      modifies this
      ensures Valid() && View() == Send(old(View()), ours, bytes, setup)
    {
      if !ours {
        return;
      }
      if counter >= MAX_TRANSFERS {
        return;
      }
      match setup {
        case NoMemory => return;
        case NoWatch =>
          if counter > 0 {
            counter := counter - 1;
          }
          watchFailures := watchFailures + 1;
        case Watching =>
          live := live[nextNumber := Transfer(bytes, 0)];
          got := got[nextNumber := []];
          nextNumber := nextNumber + 1;
          offered := offered + [bytes];
          counter := counter + 1;
      }
    }

    /** The pipe takes the next `n` bytes. */
    method Take(k: nat, n: nat)
      requires Valid() && k in live && live[k].off + n <= |live[k].bytes|
      modifies this
      ensures Valid() && k in live && View() == Advance(old(View()), k, n)
    {
      var t := live[k];
      got := got[k := got[k] + t.bytes[t.off..t.off + n]];
      live := live[k := t.(off := t.off + n)];
    }

    /** `transfer_writable` */
    method WritableNow(k: nat, broken: bool, outcomes: seq<Outcome>)
      requires Valid() && k in live
      modifies this
      ensures Valid() && View() == Next(old(View()), Writable(k, broken, outcomes))
    {
      hide Advance, Free;
      if broken {
        FreeTransfer(k);
        return;
      }
      ghost var goal := Write(View(), k, outcomes);
      var i := 0;
      assert outcomes[0..] == outcomes;
      while live[k].off < |live[k].bytes|
        invariant Valid() && k in live && 0 <= i <= |outcomes|
        invariant Write(View(), k, outcomes[i..]) == goal
        decreases |outcomes| - i
      {
        if i == |outcomes| {
          return;
        }
        match outcomes[i] {
          case Wrote(n) =>
            var room := |live[k].bytes| - live[k].off;
            Take(k, if n <= room then n else room);
          case Interrupted =>
          case WouldBlock => return;
          case Failed =>
            FreeTransfer(k);
            return;
        }
        assert outcomes[i..][1..] == outcomes[i + 1..];
        i := i + 1;
      }
      FreeTransfer(k);
    }
  }
}
