/** Reading the app's selection: one request at a time, a pipe drained into a
  * buffer one byte longer than may cross, a deadline, and one answer. */
module ClipboardRead {
  import opened Bytes
  import opened Codec
  import opened Messages
  import opened Marshal
  import Utf8

  const MAX_BYTES: nat := 61440
  const BUF_LEN: nat := 61441
  const FRAME_BUF: nat := 61696
  const SESSION_ID: nat := 1

  /** "text/plain;charset=utf-8" */
  const MIME: seq<Byte> := [116, 101, 120, 116, 47, 112, 108, 97, 105, 110, 59, 99, 104, 97, 114, 115, 101, 116, 61,
                            117, 116, 102, 45, 56]

  datatype Verdict = SelOk | SelEmpty | SelWrongType | SelTooLarge {
    function Code(): U32
    {
      match this
      case SelOk => 0
      case SelEmpty => 1
      case SelWrongType => 2
      case SelTooLarge => 3
    }
  }

  /** What the shim told the core, and which request it was about. */
  datatype Answer = Answer(request: nat, serial: U32, verdict: Verdict, data: seq<Byte>)

  /** How far a request gets before a pipe is being watched. */
  datatype Source = NoSource | OtherType | NoPipe | NoWatch | Watched

  /** What one `read` came back with. */
  datatype Outcome = Data(bytes: seq<Byte>) | Eof | Interrupted | WouldBlock | Error

  /** The endpoint and its history: requests by number, answers, and the
    * requests dropped when a later one came. */
  datatype Reader = Reader(active: bool, open: bool, current: nat, len: nat, buf: seq<Byte>,
                           requests: seq<U32>, answers: seq<Answer>, dropped: seq<nat>)

  const WIRED := Reader(false, false, 0, 0, Zeros(BUF_LEN), [], [], [])

  predicate Shaped(r: Reader)
  {
    && |r.buf| == BUF_LEN && r.len <= BUF_LEN
    && (r.active ==> r.current < |r.requests|)
  }

  // ---- the handlers as functions -------------------------------------------

  function Teardown(r: Reader): Reader
  {
    r.(active := false, open := false, len := 0, buf := Zeros(BUF_LEN))
  }

  function Respond(r: Reader, request: nat, verdict: Verdict, data: seq<Byte>): Reader
    requires request < |r.requests|
  {
    r.(answers := r.answers + [Answer(request, r.requests[request], verdict, data)])
  }

  function FinishVerdict(r: Reader): Verdict
    requires Shaped(r)
  {
    if r.len > MAX_BYTES then SelTooLarge
    else if r.len == 0 then SelEmpty
    else if Utf8.Scan(r.buf[..r.len]).None? then SelWrongType
    else SelOk
  }

  function FinishRead(r: Reader): Reader
    requires Shaped(r) && r.active
  {
    var v := FinishVerdict(r);
    Teardown(Respond(r, r.current, v, if v == SelOk then r.buf[..r.len] else []))
  }

  function Deadline(r: Reader): Reader
    requires Shaped(r) && r.active
  {
    Respond(Teardown(r), r.current, SelEmpty, [])
  }

  /** `read` never returns more than the room it was offered. */
  function Store(r: Reader, bytes: seq<Byte>): Reader
    requires Shaped(r) && r.len + |bytes| <= BUF_LEN
  {
    r.(buf := r.buf[..r.len] + bytes + r.buf[r.len + |bytes|..], len := r.len + |bytes|)
  }

  /** One wakeup of the pipe: `outcomes` are what successive reads return, and
    * beyond them the pipe would block. */
  function Drain(r: Reader, outcomes: seq<Outcome>, hangup: bool): Reader
    requires Shaped(r) && r.active
    decreases |outcomes|
  {
    if r.len >= BUF_LEN then FinishRead(r)
    else if outcomes == [] then (if hangup then FinishRead(r) else r)
    else
      match outcomes[0]
      case Data(bytes) =>
        var n := if |bytes| <= BUF_LEN - r.len then |bytes| else BUF_LEN - r.len;
        Drain(Store(r, bytes[..n]), outcomes[1..], hangup)
      case Eof => FinishRead(r)
      case Interrupted => Drain(r, outcomes[1..], hangup)
      case WouldBlock => if hangup then FinishRead(r) else r
      case Error => FinishRead(r)
  }

  function Supersede(r: Reader): Reader
  {
    if r.active then Teardown(r).(dropped := r.dropped + [r.current]) else r
  }

  /** A request supersedes the read in flight, which is never answered. */
  function Request(r: Reader, serial: U32, source: Source): Reader
    requires Shaped(r)
  {
    var me := |r.requests|;
    var asked := Supersede(r).(requests := r.requests + [serial]);
    match source
    case NoSource => Respond(asked, me, SelEmpty, [])
    case OtherType => Respond(asked, me, SelWrongType, [])
    case NoPipe => Respond(asked, me, SelEmpty, [])
    case NoWatch => Respond(Teardown(asked.(current := me)), me, SelEmpty, [])
    case Watched => asked.(active := true, open := true, current := me, len := 0)
  }

  // ---- runs ------------------------------------------------------------------

  datatype Event =
    | Asked(serial: U32, source: Source)
    | Readable(outcomes: seq<Outcome>, hangup: bool)
    | TimedOut

  /** The watchers exist only while a read is active. */
  predicate CanHappen(r: Reader, e: Event)
  {
    e.Asked? || r.active
  }

  function Next(r: Reader, e: Event): Reader
    requires Shaped(r) && CanHappen(r, e)
  {
    match e
    case Asked(serial, source) => Request(r, serial, source)
    case Readable(outcomes, hangup) => Drain(r, outcomes, hangup)
    case TimedOut => Deadline(r)
  }

  function AnswersTo(answers: seq<Answer>, k: nat): nat
  {
    if answers == [] then 0
    else AnswersTo(answers[..|answers| - 1], k) + (if answers[|answers| - 1].request == k then 1 else 0)
  }

  function Drops(dropped: seq<nat>, k: nat): nat
  {
    if dropped == [] then 0 else Drops(dropped[..|dropped| - 1], k) + (if dropped[|dropped| - 1] == k then 1 else 0)
  }

  /** How often request `k` has been answered, dropped or is being read. */
  function Fate(r: Reader, k: nat): nat
  {
    AnswersTo(r.answers, k) + Drops(r.dropped, k) + (if r.active && r.current == k then 1 else 0)
  }

  /** An answer the core can accept: the request's own serial, and content only
    * with `ok`, which then is text within the cap. */
  ghost predicate Proper(r: Reader, a: Answer)
  {
    && a.request < |r.requests| && a.serial == r.requests[a.request]
    && (if a.verdict == SelOk then 1 <= |a.data| <= MAX_BYTES && Utf8.Scan(a.data).Some? else a.data == [])
  }

  ghost predicate Sound(r: Reader)
  {
    && Shaped(r)
    && (forall k: nat :: Fate(r, k) == if k < |r.requests| then 1 else 0)
    && (forall a | a in r.answers :: Proper(r, a))
    && (forall i | 0 <= i < |r.dropped| :: r.dropped[i] + 1 < |r.requests|)
    && (r.active ==> r.open && r.current == |r.requests| - 1)
    && (!r.active ==> !r.open && r.len == 0 && r.buf == Zeros(BUF_LEN))
  }

  lemma AnswersSnoc(answers: seq<Answer>, a: Answer, k: nat)
    ensures AnswersTo(answers + [a], k) == AnswersTo(answers, k) + (if a.request == k then 1 else 0)
  {
  }

  /** Sound but for what the buffer holds: the form a read in flight keeps. */
  lemma StoreSound(r: Reader, bytes: seq<Byte>)
    requires Sound(r) && r.active && r.len + |bytes| <= BUF_LEN
    ensures Sound(Store(r, bytes)) && Store(r, bytes).active
  {
    forall k: nat ensures Fate(Store(r, bytes), k) == Fate(r, k) {
    }
  }

  lemma FinishSound(r: Reader)
    requires Sound(r) && r.active
    ensures Sound(FinishRead(r))
  {
    hide AnswersTo, Drops;
    var v := FinishVerdict(r);
    var a := Answer(r.current, r.requests[r.current], v, if v == SelOk then r.buf[..r.len] else []);
    forall k: nat ensures Fate(FinishRead(r), k) == Fate(r, k) {
      AnswersSnoc(r.answers, a, k);
    }
  }

  lemma DeadlineSound(r: Reader)
    requires Sound(r) && r.active
    ensures Sound(Deadline(r))
  {
    var a := Answer(r.current, r.requests[r.current], SelEmpty, []);
    forall k: nat ensures Fate(Deadline(r), k) == Fate(r, k) {
      AnswersSnoc(r.answers, a, k);
    }
  }

  lemma {:induction false} DrainSound(r: Reader, outcomes: seq<Outcome>, hangup: bool)
    requires Sound(r) && r.active
    ensures Sound(Drain(r, outcomes, hangup))
    decreases |outcomes|
  {
    assert Shaped(r);
    hide Sound, FinishRead, Store;
    FinishSound(r);
    if r.len < BUF_LEN && outcomes != [] {
      match outcomes[0]
      case Data(bytes) =>
        var n := if |bytes| <= BUF_LEN - r.len then |bytes| else BUF_LEN - r.len;
        StoreSound(r, bytes[..n]);
        DrainSound(Store(r, bytes[..n]), outcomes[1..], hangup);
      case Interrupted => DrainSound(r, outcomes[1..], hangup);
      case _ =>
    }
  }

  /** Dropping the read in flight and registering a request leaves only the new
    * request without a fate. */
  lemma SupersedeFates(r: Reader, serial: U32, k: nat)
    requires Sound(r)
    ensures Fate(Supersede(r).(requests := r.requests + [serial]), k) == Fate(r, k)
  {
  }

  lemma RespondFates(r: Reader, request: nat, verdict: Verdict, data: seq<Byte>, k: nat)
    requires request < |r.requests|
    ensures Fate(Respond(r, request, verdict, data), k) == Fate(r, k) + (if k == request then 1 else 0)
  {
  }

  lemma RequestSound(r: Reader, serial: U32, source: Source)
    requires Sound(r)
    ensures Sound(Request(r, serial, source))
  {
    hide AnswersTo, Drops;
    var me, next := |r.requests|, Request(r, serial, source);
    var asked := Supersede(r).(requests := r.requests + [serial]);
    forall k: nat ensures Fate(next, k) == if k < |next.requests| then 1 else 0 {
      SupersedeFates(r, serial, k);
      assert source == NoWatch ==> Fate(asked, k) == Fate(Teardown(asked.(current := me)), k);
      if !source.Watched? {
        RespondFates(asked, me, if source == OtherType then SelWrongType else SelEmpty, [], k);
      }
    }
    forall a | a in next.answers ensures Proper(next, a) {
      assert a in r.answers ==> Proper(r, a);
    }
  }

  lemma NextSound(r: Reader, e: Event)
    requires Sound(r) && CanHappen(r, e)
    ensures Sound(Next(r, e))
  {
    hide Sound;
    match e
    case Asked(serial, source) => RequestSound(r, serial, source);
    case Readable(outcomes, hangup) => DrainSound(r, outcomes, hangup);
    case TimedOut => DeadlineSound(r);
  }

  ghost predicate Legal(r: Reader, events: seq<Event>)
    decreases |events|
  {
    events != [] ==> Shaped(r) && CanHappen(r, events[0]) && Legal(Next(r, events[0]), events[1..])
  }

  ghost function Run(r: Reader, events: seq<Event>): Reader
    requires Legal(r, events)
    decreases |events|
  {
    if events == [] then r else Run(Next(r, events[0]), events[1..])
  }

  lemma {:induction false} RunSound(r: Reader, events: seq<Event>)
    requires Sound(r) && Legal(r, events)
    ensures Sound(Run(r, events))
    decreases |events|
  {
    if events != [] {
      NextSound(r, events[0]);
      RunSound(Next(r, events[0]), events[1..]);
    }
  }

  /** In every run from wiring, each request has been answered once, or was
    * dropped for a later one and never answered, or is the one being read; and
    * with no read active the buffer is wiped and no pipe is open. */
  lemma RequestAccounting(events: seq<Event>, k: nat)
    requires Legal(WIRED, events)
    ensures var r := Run(WIRED, events);
            && (k < |r.requests| ==> Fate(r, k) == 1)
            && (k < |r.requests| && Drops(r.dropped, k) > 0 ==> k + 1 < |r.requests| && AnswersTo(r.answers, k) == 0)
            && (!r.active ==> r.buf == Zeros(BUF_LEN) && !r.open)
            && (forall a | a in r.answers :: Proper(r, a))
  {
    assert Sound(WIRED);
    RunSound(WIRED, events);
    var r := Run(WIRED, events);
    if k < |r.requests| && Drops(r.dropped, k) > 0 {
      DroppedIsThere(r.dropped, k);
    }
  }

  // ---- what a request is answered with -----------------------------------------------

  /** The bytes one wakeup gets out of the pipe, before it blocks, ends or fails. */
  function Supplied(outcomes: seq<Outcome>): seq<Byte>
  {
    if outcomes == [] then []
    else
      match outcomes[0]
      case Data(bytes) => bytes + Supplied(outcomes[1..])
      case Interrupted => Supplied(outcomes[1..])
      case _ => []
  }

  /** Whether it meets the end of the pipe, or an error on it, before it blocks. */
  predicate MeetsEnd(outcomes: seq<Outcome>)
  {
    && outcomes != []
    && (outcomes[0].Eof? || outcomes[0].Error?
        || ((outcomes[0].Data? || outcomes[0].Interrupted?) && MeetsEnd(outcomes[1..])))
  }

  /** The one answer a selection of these bytes gets, over the numbers and meanings of
    * the wire: 0 with the text, 1 for nothing, 2 for what is not text, 3 for too much. */
  predicate RightAnswer(a: Answer, request: nat, serial: U32, d: seq<Byte>)
  {
    && a.request == request && a.serial == serial
    && (a.verdict.Code() == 3 <==> |d| > 61440)
    && (a.verdict.Code() == 1 <==> d == [])
    && (a.verdict.Code() == 0 <==> 1 <= |d| <= 61440 && Utf8.Scan(d).Some?)
    && (a.verdict.Code() == 2 <==> 1 <= |d| <= 61440 && Utf8.Scan(d).None?)
    && a.data == if a.verdict.Code() == 0 then d else []
  }

  /** Where a read stands that has been supplied `d` in all: still collecting it, or
    * over, answered rightly. */
  ghost predicate ReadStands(r: Reader, before: Reader, d: seq<Byte>, over: bool)
  {
    && r.requests == before.requests && r.active == !over
    && if over then |r.answers| == |before.answers| + 1 && before.answers <= r.answers && before.current < |before.requests|
                    && RightAnswer(r.answers[|before.answers|], before.current, before.requests[before.current], d)
       else r.answers == before.answers && r.current == before.current && Shaped(r) && r.len == |d| && r.buf[..r.len] == d
  }

  /** Bytes beyond the buffer change no answer. */
  lemma FinishRight(r: Reader, d: seq<Byte>)
    requires Shaped(r) && r.active && r.buf[..r.len] <= d && (r.len < BUF_LEN ==> r.len == |d|)
    ensures ReadStands(FinishRead(r), r, d, true)
  {
    if r.len < BUF_LEN {
      assert r.buf[..r.len] == d;
    }
  }

  lemma {:induction false} DrainRight(r: Reader, outcomes: seq<Outcome>, hangup: bool)
    requires Shaped(r) && r.active
    ensures var d := r.buf[..r.len] + Supplied(outcomes);
            ReadStands(Drain(r, outcomes, hangup), r, d, hangup || |d| >= BUF_LEN || MeetsEnd(outcomes))
    decreases |outcomes|
  {
    hide FinishRead, RightAnswer;
    var have, d := r.buf[..r.len], r.buf[..r.len] + Supplied(outcomes);
    if r.len >= BUF_LEN {
      FinishRight(r, d);
    } else if outcomes == [] {
      assert d == have;
      FinishRight(r, d);
    } else {
      match outcomes[0] {
        case Data(bytes) =>
          var n := if |bytes| <= BUF_LEN - r.len then |bytes| else BUF_LEN - r.len;
          var next := Store(r, bytes[..n]);
          assert next.buf[..next.len] == have + bytes[..n];
          if n == |bytes| {
            assert bytes[..n] == bytes;
            assert (have + bytes) + Supplied(outcomes[1..]) == d;
            DrainRight(next, outcomes[1..], hangup);
          } else {
            assert have + bytes[..n] <= d;
            FinishRight(next, d);
          }
        case Interrupted => DrainRight(r, outcomes[1..], hangup);
        case _ =>
          assert d == have;
          FinishRight(r, d);
      }
    }
  }

  /** The bytes a whole series of wakeups gets. */
  function SuppliedBy(events: seq<Event>): seq<Byte>
  {
    if events == [] then []
    else (if events[0].Readable? then Supplied(events[0].outcomes) else []) + SuppliedBy(events[1..])
  }

  lemma {:induction false} WakeupsRight(r: Reader, events: seq<Event>)
    requires Shaped(r) && r.active && Legal(r, events) && forall e | e in events :: e.Readable?
    requires r.len < BUF_LEN
    ensures var d := r.buf[..r.len] + SuppliedBy(events); ReadStands(Run(r, events), r, d, !Run(r, events).active)
    decreases |events|
  {
    hide Drain, RightAnswer;
    var have, d := r.buf[..r.len], r.buf[..r.len] + SuppliedBy(events);
    if events == [] {
      assert d == have;
    } else {
      var e := events[0];
      var next := Next(r, e);
      assert e in events;
      assert forall i | 0 <= i < |events[1..]| :: events[1..][i] == events[i + 1];
      DrainRight(r, e.outcomes, e.hangup);
      assert have + Supplied(e.outcomes) + SuppliedBy(events[1..]) == d;
      if next.active {
        WakeupsRight(next, events[1..]);
      } else {
        assert events[1..] == [] && SuppliedBy([]) == [];
        assert have + Supplied(e.outcomes) == d;
      }
    }
  }

  /** A request whose source is being read, and wakeups in any number and size: as long
    * as it is being read it has no answer; when it no longer is, it has exactly one,
    * and that is the right one for the bytes supplied. */
  lemma AnswerMeans(r: Reader, serial: U32, events: seq<Event>)
    requires Sound(r) && Legal(Request(r, serial, Watched), events) && forall e | e in events :: e.Readable?
    ensures var t := Run(Request(r, serial, Watched), events);
            if t.active then t.answers == r.answers
            else |t.answers| == |r.answers| + 1 && r.answers <= t.answers
                 && RightAnswer(t.answers[|r.answers|], |r.requests|, serial, SuppliedBy(events))
  {
    hide RightAnswer;
    var asked := Request(r, serial, Watched);
    assert asked.buf[..asked.len] + SuppliedBy(events) == SuppliedBy(events);
    WakeupsRight(asked, events);
  }

  /** And when a read is not begun, or its deadline passes: one answer at once, empty,
    * except that a source without our type is of the wrong type. */
  lemma OtherAnswers(r: Reader, serial: U32, source: Source)
    requires Sound(r)
    ensures !source.Watched? ==>
              var t := Request(r, serial, source);
              && !t.active && |t.answers| == |r.answers| + 1 && r.answers <= t.answers
              && var a := t.answers[|r.answers|];
                 a.request == |r.requests| && a.serial == serial && a.data == []
                 && a.verdict.Code() == if source.OtherType? then 2 else 1
    ensures r.active ==>
              var t := Next(r, TimedOut);
              && !t.active && |t.answers| == |r.answers| + 1 && r.answers <= t.answers
              && var a := t.answers[|r.answers|];
                 a.request == r.current && a.serial == r.requests[r.current] && a.data == [] && a.verdict.Code() == 1
  {
  }

  // ---- exactly which requests are never answered ----------------------------------

  lemma {:induction false} DrainDropsNothing(r: Reader, outcomes: seq<Outcome>, hangup: bool)
    requires Shaped(r) && r.active
    ensures Drain(r, outcomes, hangup).dropped == r.dropped
    decreases |outcomes|
  {
    if r.len < BUF_LEN && outcomes != [] {
      match outcomes[0]
      case Data(bytes) =>
        var n := if |bytes| <= BUF_LEN - r.len then |bytes| else BUF_LEN - r.len;
        DrainDropsNothing(Store(r, bytes[..n]), outcomes[1..], hangup);
      case Interrupted => DrainDropsNothing(r, outcomes[1..], hangup);
      case _ =>
    }
  }

  /** A request is dropped at exactly one kind of moment: it is being read and
    * another request arrives. */
  lemma DroppedIff(r: Reader, e: Event, k: nat)
    requires Shaped(r) && CanHappen(r, e)
    ensures Drops(Next(r, e).dropped, k) == Drops(r.dropped, k) + (if e.Asked? && r.active && r.current == k then 1 else 0)
  {
    match e
    case Asked(serial, source) =>
    case Readable(outcomes, hangup) => DrainDropsNothing(r, outcomes, hangup);
    case TimedOut =>
  }

  /** Request `k` was made, has no answer, and is not being read. */
  predicate Lost(r: Reader, k: nat)
  {
    k < |r.requests| && AnswersTo(r.answers, k) == 0 && !(r.active && r.current == k)
  }

  lemma LostIsDropped(r: Reader, k: nat)
    requires Sound(r)
    ensures Lost(r, k) <==> Drops(r.dropped, k) > 0
  {
    hide AnswersTo, Drops;
    assert Fate(r, k) == if k < |r.requests| then 1 else 0;
  }

  lemma {:induction false} RunSnoc(r: Reader, events: seq<Event>, e: Event)
    requires Legal(r, events + [e])
    ensures Legal(r, events) && Shaped(Run(r, events)) && CanHappen(Run(r, events), e)
    ensures Run(r, events + [e]) == Next(Run(r, events), e)
    decreases |events|
  {
    var all := events + [e];
    if events == [] {
      assert all[1..] == [];
    } else {
      assert all[1..] == events[1..] + [e] && all[0] == events[0];
      RunSnoc(Next(r, events[0]), events[1..], e);
    }
  }

  /** Event `n` of the run is another request, and finds request `k` being read. */
  ghost predicate Interrupts(events: seq<Event>, n: nat, k: nat)
  {
    && n < |events| && events[n].Asked?
    && Legal(WIRED, events[..n]) && var r := Run(WIRED, events[..n]); r.active && r.current == k
  }

  /** In every run a request is never answered exactly when another request
    * arrived while it was being read: the promise of one answer to every request
    * holds of the others, and of them alone. */
  lemma {:induction false} UnansweredIff(events: seq<Event>, k: nat)
    requires Legal(WIRED, events)
    ensures Lost(Run(WIRED, events), k) <==> exists n: nat :: Interrupts(events, n, k)
    decreases |events|
  {
    assert Sound(WIRED);
    RunSound(WIRED, events);
    hide Sound;
    LostIsDropped(Run(WIRED, events), k);
    if events == [] {
      assert Drops(WIRED.dropped, k) == 0;
    } else {
      var e, before := events[|events| - 1], events[..|events| - 1];
      assert events == before + [e];
      RunSnoc(WIRED, before, e);
      InterruptsSnoc(before, e, k);
      hide Interrupts, Lost, Drops, Next;
      RunSound(WIRED, before);
      UnansweredIff(before, k);
      LostIsDropped(Run(WIRED, before), k);
      DroppedIff(Run(WIRED, before), e, k);
    }
  }

  lemma InterruptsSnoc(before: seq<Event>, e: Event, k: nat)
    requires Legal(WIRED, before) && Legal(WIRED, before + [e])
    ensures (exists n: nat :: Interrupts(before + [e], n, k))
       <==> (exists n: nat :: Interrupts(before, n, k))
            || (e.Asked? && Run(WIRED, before).active && Run(WIRED, before).current == k)
  {
    hide Next;
    var all, last := before + [e], |before|;
    assert all[..last] == before;
    forall n: nat | n < last ensures Interrupts(all, n, k) <==> Interrupts(before, n, k) {
      assert all[..n] == before[..n];
    }
    if e.Asked? && Run(WIRED, before).active && Run(WIRED, before).current == k {
      assert Interrupts(all, last, k);
    }
  }

  /** The shortest such run: two requests, the first being read. */
  lemma FirstOfTwoIsLost(s: U32, t: U32)
    ensures var events := [Asked(s, Watched), Asked(t, NoSource)];
            Legal(WIRED, events) && var r := Run(WIRED, events);
            r.requests == [s, t] && Lost(r, 0) && AnswersTo(r.answers, 1) == 1
  {
    var events := [Asked(s, Watched), Asked(t, NoSource)];
    var a := Next(WIRED, events[0]);
    var b := Next(a, events[1]);
    assert events[1..] == [Asked(t, NoSource)] && events[1..][1..] == [];
    assert Legal(b, []) && Run(b, []) == b;
    assert Legal(a, events[1..]) && Run(a, events[1..]) == b;
  }

  lemma {:induction false} DroppedIsThere(dropped: seq<nat>, k: nat)
    requires Drops(dropped, k) > 0
    ensures exists i :: 0 <= i < |dropped| && dropped[i] == k
  {
    if dropped[|dropped| - 1] == k {
      assert dropped[|dropped| - 1] == k;
    } else {
      DroppedIsThere(dropped[..|dropped| - 1], k);
      var i :| 0 <= i < |dropped[..|dropped| - 1]| && dropped[..|dropped| - 1][i] == k;
      assert dropped[i] == k;
    }
  }

  // ---- the frame on the wire -----------------------------------------------------

  /** The arguments of the `selection` message for an answer. */
  function SelectionOf(a: Answer): (args: seq<Arg>)
    requires |a.data| <= MAX_BYTES
    ensures TypedAll(Layout(ShimSessionSelection).sig, args)
  {
    SelectionArgs(a.serial, a.verdict.Code(), if a.verdict == SelOk then MIME else [], a.data)
  }

  /** Every proper answer encodes into the static frame, and the core's decoder
    * returns the same serial, status and content. */
  lemma AnswerReachesCore(r: Reader, a: Answer)
    requires Proper(r, a)
    ensures var m := Layout(ShimSessionSelection);
            && Encode(m, SESSION_ID, SelectionOf(a), FRAME_BUF).Ok?
            && Decode(m, Encode(m, SESSION_ID, SelectionOf(a), FRAME_BUF).value, -1) == Ok(Decoded(SESSION_ID, SelectionOf(a)))
  {
    hide Decode, Body;
    var m, args := Layout(ShimSessionSelection), SelectionOf(a);
    var mime := if a.verdict == SelOk then MIME else [];
    SelectionSize(a.serial, a.verdict.Code(), mime, a.data);
    SelectionAccepted(a.serial, a.verdict.Code(), mime, a.data);
    DecodeOfEncode(m, SESSION_ID, args, FRAME_BUF, -1);
  }

  lemma SelectionAccepted(serial: U32, code: U32, mime: seq<Byte>, data: seq<Byte>)
    requires code < 4 && |mime| <= 32 && |data| <= MAX_BYTES
    ensures var sig, args := Layout(ShimSessionSelection).sig, SelectionArgs(serial, code, mime, data);
            FirstComplaint(sig, args, 0).Ok? && FdsAre(sig, args, -1)
  {
  }

  /** The frame an answer becomes. */
  ghost function FrameOf(a: Answer): seq<Byte>
    requires |a.data| <= MAX_BYTES
  {
    match Encode(Layout(ShimSessionSelection), SESSION_ID, SelectionOf(a), FRAME_BUF)
    case Ok(bs) => bs
    case Err(_) => []
  }

  lemma FrameFits(a: Answer)
    requires |a.data| <= MAX_BYTES
    ensures Encode(Layout(ShimSessionSelection), SESSION_ID, SelectionOf(a), FRAME_BUF) == Ok(FrameOf(a))
  {
  }

  // ---- the endpoint object --------------------------------------------------------

  /** `struct vitrin_clipboard_read` with the frame buffer answers are built in.
    * The ghost fields number the requests. */
  class Endpoint {
    var active: bool
    var open: bool
    var serial: U32
    var len: nat
    const buf: array<Byte>
    const frame: array<Byte>
    var wire: seq<seq<Byte>>
    ghost var current: nat
    ghost var requests: seq<U32>
    ghost var answers: seq<Answer>
    ghost var dropped: seq<nat>

    ghost predicate Valid()
      reads this
    {
      && buf.Length == BUF_LEN && frame.Length == FRAME_BUF && buf != frame && len <= BUF_LEN
      && (active ==> current < |requests| && serial == requests[current])
      && |wire| == |answers|
      && (forall i | 0 <= i < |answers| :: |answers[i].data| <= MAX_BYTES && wire[i] == FrameOf(answers[i]))
    }

    ghost function View(): Reader
      reads this, buf
    {
      Reader(active, open, current, len, buf[..], requests, answers, dropped)
    }

    /** `vitrin_clipboard_wire` on a zeroed struct. */
    constructor ()
      ensures Valid() && View() == WIRED && fresh(buf) && fresh(frame)
    {
      buf := new Byte[BUF_LEN](_ => 0);
      frame := new Byte[FRAME_BUF](_ => 0);
      active, open, serial, len, wire := false, false, 0, 0, [];
      current, requests, answers, dropped := 0, [], [], [];
    }

    /** `read_teardown`: close, wipe, forget. */
    method TearDown()
      requires Valid()
      modifies this`active, this`open, this`len, buf
      ensures Valid() && View() == Teardown(old(View()))
    {
      open := false;
      ZeroFill(buf, 0, BUF_LEN);
      assert buf[..] == Zeros(BUF_LEN);
      len := 0;
      active := false;
    }

    /** `answer`: encode into the static frame and hand it to the transport. */
    method Reply(ghost request: nat, serial: U32, verdict: Verdict, data: seq<Byte>)
      requires Valid() && request < |requests| && serial == requests[request]
      requires |data| <= MAX_BYTES && (verdict != SelOk ==> data == [])
      modifies this`wire, this`answers, frame
      ensures Valid() && View() == Respond(old(View()), request, verdict, data)
    {
      hide Encode, FrameOf, Splice;
      var ok := verdict == SelOk;
      ghost var a := Answer(request, serial, verdict, data);
      var n := SelectionEncode(serial, verdict.Code(), if ok then MIME else [], if ok then data else [], SESSION_ID, frame);
      FrameFits(a);
      assert frame[..n] == frame[..][0..n];
      wire := wire + [frame[..n]];
      answers := answers + [a];
    }

    /** `read_finish` */
    method Finish()
      requires Valid() && active
      modifies this, buf, frame
      ensures Valid() && View() == FinishRead(old(View()))
    {
      hide FrameOf;
      var text := buf[..len];
      if len > MAX_BYTES {
        TearDown();
        Reply(current, serial, SelTooLarge, []);
        return;
      }
      if len == 0 {
        TearDown();
        Reply(current, serial, SelEmpty, []);
        return;
      }
      var valid := Utf8.Valid(text);
      if !valid {
        TearDown();
        Reply(current, serial, SelWrongType, []);
        return;
      }
      Reply(current, serial, SelOk, text);
      TearDown();
    }

    /** `read_deadline` */
    method DeadlinePassed()
      requires Valid() && active
      modifies this, buf, frame
      ensures Valid() && View() == Deadline(old(View()))
    {
      TearDown();
      Reply(current, serial, SelEmpty, []);
    }

    /** `read_readable`: read until the pipe would block, ends, fails or the
      * buffer is full. */
    method PipeReadable(outcomes: seq<Outcome>, hangup: bool)
      requires Valid() && active
      modifies this, buf, frame
      ensures Valid() && View() == Drain(old(View()), outcomes, hangup)
    {
      hide FrameOf, FinishRead, Store;
      ghost var goal := Drain(View(), outcomes, hangup);
      var i := 0;
      assert outcomes[0..] == outcomes;
      while true
        invariant Valid() && active && 0 <= i <= |outcomes|
        invariant goal == Drain(View(), outcomes[i..], hangup)
        decreases |outcomes| - i
      {
        if len >= BUF_LEN {
          Finish();
          return;
        }
        var outcome := if i < |outcomes| then outcomes[i] else WouldBlock;
        match outcome {
          case Data(bytes) =>
            var n := if |bytes| <= BUF_LEN - len then |bytes| else BUF_LEN - len;
            Accept(bytes[..n]);
          case Eof =>
            Finish();
            return;
          case Interrupted =>
          case WouldBlock =>
            if hangup {
              Finish();
            }
            return;
          case Error =>
            Finish();
            return;
        }
        assert i < |outcomes| && outcomes[i..][1..] == outcomes[i + 1..];
        i := i + 1;
      }
    }

    /** The kernel fills the buffer's free end. */
    method Accept(bytes: seq<Byte>)
      requires Valid() && len + |bytes| <= BUF_LEN
      modifies this`len, buf
      ensures Valid() && View() == Store(old(View()), bytes)
    {
      CopyInto(buf, len, bytes);
      len := len + |bytes|;
    }

    /** A later request makes the read in flight stale. */
    method Abandon()
      requires Valid()
      modifies this`active, this`open, this`len, this`dropped, buf
      ensures Valid() && !active && View() == Supersede(old(View()))
    {
      if active {
        dropped := dropped + [current];
        TearDown();
      }
    }

    /** `vitrin_clipboard_handle_request`; `source` is how far it gets. */
    method HandleRequest(asked: U32, source: Source)
      requires Valid()
      modifies this, buf, frame
      ensures Valid() && View() == Request(old(View()), asked, source)
    {
      hide FrameOf, Zeros, Supersede;
      Abandon();
      ghost var me := |requests|;
      requests := requests + [asked];
      match source
      case NoSource => Reply(me, asked, SelEmpty, []);
      case OtherType => Reply(me, asked, SelWrongType, []);
      case NoPipe => Reply(me, asked, SelEmpty, []);
      case NoWatch =>
        active, serial, current, open, len := true, asked, me, true, 0;
        TearDown();
        Reply(me, asked, SelEmpty, []);
      case Watched =>
        active, serial, current, open, len := true, asked, me, true, 0;
    }
  }
}
