/** The clipboard talking to itself: the bytes the core offered are asked back,
  * so the shim serves them into one end of a bounded pipe and reads them out of
  * the other, in wakeups and pieces of any size. */
module ClipboardLoop {
  import opened Bytes
  import opened ClipboardRead
  import opened Options
  import Serve = ClipboardServe
  import Utf8

  /** `vitrin_clipboard_handle_offer`: what the app's selection becomes. */
  function Offer(selection: Option<seq<Byte>>, ours: bool, data: seq<Byte>): Option<seq<Byte>>
  {
    if !ours || data == [] || |data| > MAX_BYTES then selection else Some(data)
  }

  /** An offer of another type, of nothing, or of more than may cross is ignored. */
  lemma OfferIgnored(selection: Option<seq<Byte>>, ours: bool, data: seq<Byte>)
    requires !ours || data == [] || |data| > 61440
    ensures Offer(selection, ours, data) == selection
  {
  }

  /** The read in flight, the transfer feeding it and the pipe between them. */
  datatype Loop = Loop(reader: Reader, server: Serve.Server, k: nat, pipe: seq<Byte>, capacity: nat)

  /** The writing end is open while the transfer lives. */
  predicate Writing(l: Loop)
  {
    l.k in l.server.live
  }

  /** A selection request for data `d` the shim itself serves. */
  function Begin(r: Reader, s: Serve.Server, serial: U32, d: seq<Byte>, capacity: nat): Loop
    requires ClipboardRead.Shaped(r)
  {
    Loop(Request(r, serial, Watched), Serve.Send(s, true, d, Serve.Watching), |s.offered|, [], capacity)
  }

  // ---- wakeups -----------------------------------------------------------------

  /** What the writer's wakeup put into the pipe. */
  function Written(before: Serve.Server, after: Serve.Server, k: nat): seq<Byte>
    requires k in before.got && k in after.got && |before.got[k]| <= |after.got[k]|
  {
    after.got[k][|before.got[k]|..]
  }

  predicate QuietWrites(outcomes: seq<Serve.Outcome>)
  {
    forall o | o in outcomes :: !o.Failed?
  }

  /** The bytes a list of reads returns, in order. */
  function Joined(outcomes: seq<Outcome>): seq<Byte>
  {
    if outcomes == [] then []
    else (if outcomes[0].Data? then outcomes[0].bytes else []) + Joined(outcomes[1..])
  }

  predicate QuietReads(outcomes: seq<Outcome>)
  {
    forall o | o in outcomes :: o.Data? || o.Interrupted?
  }

  datatype Step =
    | Serving(writes: seq<Serve.Outcome>)
    | Collecting(pieces: seq<Outcome>, hangup: bool)

  /** One wakeup of either end. The reader empties the pipe and then sees its
    * end, or would block; a hangup is reported only once the writer is gone. */
  predicate Enabled(l: Loop, step: Step)
    requires Serve.Shaped(l.server) && ClipboardRead.Shaped(l.reader)
  {
    match step
    case Serving(writes) =>
      && Writing(l) && QuietWrites(writes)
      && var after := Serve.Write(l.server, l.k, writes);
         && l.k in after.got && |l.server.got[l.k]| <= |after.got[l.k]|
         && |l.pipe| + |Written(l.server, after, l.k)| <= l.capacity
    case Collecting(pieces, hangup) =>
      l.reader.active && QuietReads(pieces) && Joined(pieces) == l.pipe && (hangup ==> !Writing(l))
  }

  function Next(l: Loop, step: Step): Loop
    requires Serve.Shaped(l.server) && ClipboardRead.Shaped(l.reader) && Enabled(l, step)
  {
    match step
    case Serving(writes) =>
      var after := Serve.Write(l.server, l.k, writes);
      l.(server := after, pipe := l.pipe + Written(l.server, after, l.k))
    case Collecting(pieces, hangup) =>
      l.(reader := Drain(l.reader, pieces + [if Writing(l) then WouldBlock else Eof], hangup), pipe := [])
  }

  // ---- what a wakeup does --------------------------------------------------------

  lemma {:induction false} DrainCollects(r: Reader, pieces: seq<Outcome>, end: Outcome, hangup: bool)
    requires ClipboardRead.Shaped(r) && r.active && QuietReads(pieces) && r.len + |Joined(pieces)| < BUF_LEN
    requires end == Eof || (end == WouldBlock && !hangup)
    ensures Drain(r, pieces + [end], hangup)
         == if end == Eof then FinishRead(Store(r, Joined(pieces))) else Store(r, Joined(pieces))
    decreases |pieces|
  {
    hide FinishRead;
    if pieces == [] {
      assert pieces + [end] == [end];
      assert Store(r, []) == r;
    } else {
      assert (pieces + [end])[1..] == pieces[1..] + [end];
      assert pieces[0] in pieces;
      if pieces[0].Data? {
        var bytes := pieces[0].bytes;
        assert bytes[..|bytes|] == bytes;
        DrainCollects(Store(r, bytes), pieces[1..], end, hangup);
        StoreTwice(r, bytes, Joined(pieces[1..]));
      } else {
        assert Joined(pieces) == Joined(pieces[1..]);
        DrainCollects(r, pieces[1..], end, hangup);
      }
    }
  }

  lemma StoreTwice(r: Reader, a: seq<Byte>, b: seq<Byte>)
    requires ClipboardRead.Shaped(r) && r.len + |a| + |b| <= BUF_LEN
    ensures Store(Store(r, a), b) == Store(r, a + b)
  {
  }

  /** A quiet wakeup only ever extends what the client has, and ends the
    * transfer only when that is everything. */
  lemma {:induction false} QuietWriteExtends(s: Serve.Server, k: nat, writes: seq<Serve.Outcome>)
    requires Serve.Sound(s) && Serve.Shaped(s) && k in s.live && QuietWrites(writes)
    ensures var after := Serve.Write(s, k, writes);
            && k in after.got && s.got[k] <= after.got[k] && after.offered == s.offered
            && (k !in after.live ==> k < |s.offered| && after.got[k] == s.offered[k])
    decreases |writes|
  {
    hide Serve.Advance;
    var t := s.live[k];
    assert Serve.InStep(s, k);
    if t.off == |t.bytes| {
      assert t.bytes[..t.off] == t.bytes;
    } else if writes != [] {
      assert writes[0] in writes;
      if writes[0].Wrote? {
        var room := |t.bytes| - t.off;
        var n := if writes[0].n <= room then writes[0].n else room;
        AdvanceExtends(s, k, n);
        QuietWriteExtends(Serve.Advance(s, k, n), k, writes[1..]);
      } else if writes[0].Interrupted? {
        QuietWriteExtends(s, k, writes[1..]);
      }
    }
  }

  lemma AdvanceExtends(s: Serve.Server, k: nat, n: nat)
    requires Serve.Sound(s) && Serve.Shaped(s) && k in s.live && s.live[k].off + n <= |s.live[k].bytes|
    ensures var r := Serve.Advance(s, k, n);
            Serve.Sound(r) && Serve.Shaped(r) && k in r.live && k in r.got && s.got[k] <= r.got[k] && r.offered == s.offered
  {
    Serve.AdvanceSound(s, k, n);
    Serve.SoundShape(Serve.Advance(s, k, n));
  }

  // ---- the loop's invariant --------------------------------------------------------

  /** Read plus pipe is exactly what was written, and only the whole of `d` ends
    * the writing; once the read is over, its answer is what `d` deserves. */
  ghost predicate Carries(l: Loop, request: nat, d: seq<Byte>)
  {
    && ClipboardRead.Sound(l.reader) && ClipboardRead.Shaped(l.reader)
    && Serve.Sound(l.server) && Serve.Shaped(l.server)
    && 1 <= |d| <= MAX_BYTES && l.k < |l.server.offered| && l.server.offered[l.k] == d && l.k in l.server.got
    && (!Writing(l) ==> l.server.got[l.k] == d)
    && (if l.reader.active then l.reader.current == request && l.reader.buf[..l.reader.len] + l.pipe == l.server.got[l.k]
        else Answered(l.reader, request, d))
  }

  /** The request's one answer: `ok` with exactly `d`, or `wrong_type` when `d`
    * is not text. */
  ghost predicate Answered(r: Reader, request: nat, d: seq<Byte>)
  {
    exists a | a in r.answers ::
      && a.request == request
      && (if Utf8.Scan(d).Some? then a.verdict == SelOk && a.data == d else a.verdict == SelWrongType && a.data == [])
  }

  lemma BeginCarries(r: Reader, s: Serve.Server, serial: U32, d: seq<Byte>, capacity: nat)
    requires ClipboardRead.Sound(r) && Serve.Sound(s) && Serve.Shaped(s) && s.counter < Serve.MAX_TRANSFERS
    requires 1 <= |d| <= MAX_BYTES
    ensures Carries(Begin(r, s, serial, d, capacity), |r.requests|, d)
  {
    hide AnswersTo, Drops, Utf8.Scan;
    RequestSound(r, serial, Watched);
    Serve.SendSound(s, true, d, Serve.Watching);
    Serve.SoundShape(Serve.Send(s, true, d, Serve.Watching));
    var l := Begin(r, s, serial, d, capacity);
    assert l.reader.buf[..0] + l.pipe == [];
  }

  lemma ServingCarries(l: Loop, writes: seq<Serve.Outcome>, request: nat, d: seq<Byte>)
    requires Carries(l, request, d) && Enabled(l, Serving(writes))
    ensures Carries(Next(l, Serving(writes)), request, d)
  {
    hide ClipboardRead.Sound, Serve.Sound, Answered, Serve.Write;
    Serve.WriteSound(l.server, l.k, writes);
    Serve.SoundShape(Serve.Write(l.server, l.k, writes));
    QuietWriteExtends(l.server, l.k, writes);
    var after := Serve.Write(l.server, l.k, writes);
    assert l.server.got[l.k] + Written(l.server, after, l.k) == after.got[l.k];
    if l.reader.active {
      assert l.reader.buf[..l.reader.len] + (l.pipe + Written(l.server, after, l.k)) == after.got[l.k];
    }
  }

  lemma CollectingCarries(l: Loop, pieces: seq<Outcome>, hangup: bool, request: nat, d: seq<Byte>)
    requires Carries(l, request, d) && Enabled(l, Collecting(pieces, hangup))
    ensures Carries(Next(l, Collecting(pieces, hangup)), request, d)
  {
    hide ClipboardRead.Sound, Serve.Sound, Answered;
    var r, end := l.reader, if Writing(l) then WouldBlock else Eof;
    GotWithin(l.server, l.k);
    assert |r.buf[..r.len]| == r.len;
    DrainSound(r, pieces + [end], hangup);
    SoundIsShaped(Drain(r, pieces + [end], hangup));
    DrainCollects(r, pieces, end, hangup);
    var full := Store(r, l.pipe);
    assert full.buf[..full.len] == r.buf[..r.len] + l.pipe;
    if !Writing(l) {
      FinishAnswers(full, request, d);
    } else {
      assert full.buf[..full.len] + [] == l.server.got[l.k];
    }
  }

  lemma GotWithin(s: Serve.Server, k: nat)
    requires Serve.Sound(s) && k in s.got
    ensures k < |s.offered| && |s.got[k]| <= |s.offered[k]|
  {
  }

  lemma FinishAnswers(r: Reader, request: nat, d: seq<Byte>)
    requires ClipboardRead.Shaped(r) && r.active && r.current == request && r.buf[..r.len] == d && 1 <= |d| <= MAX_BYTES
    ensures Answered(FinishRead(r), request, d)
  {
  }

  lemma SoundIsShaped(r: Reader)
    requires ClipboardRead.Sound(r)
    ensures ClipboardRead.Shaped(r)
  {
  }

  // ---- whole runs ---------------------------------------------------------------------

  ghost predicate Legal(l: Loop, steps: seq<Step>)
    decreases |steps|
  {
    steps != [] ==>
      && Serve.Shaped(l.server) && ClipboardRead.Shaped(l.reader) && Enabled(l, steps[0])
      && Legal(Next(l, steps[0]), steps[1..])
  }

  ghost function Run(l: Loop, steps: seq<Step>): Loop
    requires Legal(l, steps)
    decreases |steps|
  {
    if steps == [] then l else Run(Next(l, steps[0]), steps[1..])
  }

  lemma {:induction false} RunCarries(l: Loop, steps: seq<Step>, request: nat, d: seq<Byte>)
    requires Carries(l, request, d) && Legal(l, steps)
    ensures Carries(Run(l, steps), request, d)
    decreases |steps|
  {
    hide Carries;
    if steps != [] {
      match steps[0] {
        case Serving(writes) => ServingCarries(l, writes, request, d);
        case Collecting(pieces, hangup) => CollectingCarries(l, pieces, hangup, request, d);
      }
      RunCarries(Next(l, steps[0]), steps[1..], request, d);
    }
  }

  /** Whatever the wakeups and their pieces, when the read is over the request
    * has been answered with exactly the bytes offered, or with `wrong_type` when
    * they are not text; and while it is not over a wakeup that brings the end
    * nearer is possible. */
  lemma SelfRoundTrip(r: Reader, s: Serve.Server, serial: U32, d: seq<Byte>, capacity: nat, steps: seq<Step>)
    requires ClipboardRead.Sound(r) && Serve.Sound(s) && Serve.Shaped(s) && s.counter < Serve.MAX_TRANSFERS
    requires 1 <= |d| <= 61440 && capacity > 0
    requires Legal(Begin(r, s, serial, d, capacity), steps)
    ensures forall selection :: Offer(selection, true, d) == Some(d)
    ensures var l := Run(Begin(r, s, serial, d, capacity), steps);
            && Serve.Shaped(l.server) && ClipboardRead.Shaped(l.reader)
            && (!l.reader.active ==> Answered(l.reader, |r.requests|, d))
            && (l.reader.active ==> exists step :: Enabled(l, step) && Nearer(l, Next(l, step)))
  {
    BeginCarries(r, s, serial, d, capacity);
    RunCarries(Begin(r, s, serial, d, capacity), steps, |r.requests|, d);
    RunCapacity(Begin(r, s, serial, d, capacity), steps);
    var l := Run(Begin(r, s, serial, d, capacity), steps);
    if l.reader.active {
      var step := Progress(l, |r.requests|, d);
    }
  }

  lemma {:induction false} RunCapacity(l: Loop, steps: seq<Step>)
    requires Legal(l, steps) && |l.pipe| <= l.capacity
    ensures Run(l, steps).capacity == l.capacity && |Run(l, steps).pipe| <= l.capacity
    decreases |steps|
  {
    if steps != [] {
      RunCapacity(Next(l, steps[0]), steps[1..]);
    }
  }

  /** How much is left: each byte to write counts twice, each to read once, and
    * so do the writer and the reader themselves. */
  function Left(l: Loop): nat
    requires Serve.Shaped(l.server)
  {
    (if Writing(l) then 2 * (|l.server.live[l.k].bytes| - l.server.live[l.k].off) + 1 else 0) + |l.pipe|
    + (if l.reader.active then 1 else 0)
  }

  predicate Nearer(l: Loop, after: Loop)
  {
    Serve.Shaped(l.server) && Serve.Shaped(after.server) && Left(after) < Left(l)
  }

  lemma Progress(l: Loop, request: nat, d: seq<Byte>) returns (step: Step)
    requires Carries(l, request, d) && l.reader.active && |l.pipe| <= l.capacity && l.capacity > 0
    ensures Enabled(l, step) && Nearer(l, Next(l, step))
  {
    if l.pipe == [] && Writing(l) {
      step := Serving([Serve.Wrote(1)]);
      WriteOne(l);
    } else {
      step := Collecting([Data(l.pipe)], false);
      assert Joined([]) == [];
      assert Joined([Data(l.pipe)]) == l.pipe;
      CollectingCarries(l, [Data(l.pipe)], false, request, d);
      if !Writing(l) {
        CollectEnds(l, request, d);
      }
    }
  }

  lemma CollectEnds(l: Loop, request: nat, d: seq<Byte>)
    requires Carries(l, request, d) && Enabled(l, Collecting([Data(l.pipe)], false)) && !Writing(l)
    ensures !Next(l, Collecting([Data(l.pipe)], false)).reader.active
  {
    GotWithin(l.server, l.k);
    assert |l.reader.buf[..l.reader.len]| == l.reader.len;
    DrainCollects(l.reader, [Data(l.pipe)], Eof, false);
  }

  /** What one write of one byte leaves. */
  lemma WriteOneByte(s: Serve.Server, k: nat)
    requires Serve.Shaped(s) && k in s.live
    ensures var t, after := s.live[k], Serve.Write(s, k, [Serve.Wrote(1)]);
            && k in after.got
            && (k in after.live ==> t.off < |t.bytes| && after.live[k] == t.(off := t.off + 1))
            && after.got[k] == if t.off < |t.bytes| then s.got[k] + [t.bytes[t.off]] else s.got[k]
  {
    hide Serve.Write, Serve.Advance;
    WriteUnrolled(s, k);
    if s.live[k].off < |s.live[k].bytes| {
      AdvanceOne(s, k);
    }
  }

  lemma AdvanceOne(s: Serve.Server, k: nat)
    requires k in s.live && k in s.got && s.live[k].off < |s.live[k].bytes|
    ensures var t, next := s.live[k], Serve.Advance(s, k, 1);
            && k in next.live && next.live[k] == t.(off := t.off + 1)
            && k in next.got && next.got[k] == s.got[k] + [t.bytes[t.off]]
  {
    var t := s.live[k];
    assert t.bytes[t.off..t.off + 1] == [t.bytes[t.off]];
  }

  lemma WriteUnrolled(s: Serve.Server, k: nat)
    requires Serve.Shaped(s) && k in s.live
    ensures var t := s.live[k];
            Serve.Write(s, k, [Serve.Wrote(1)])
            == if t.off == |t.bytes| then Serve.Free(s, k)
               else
                 var next := Serve.Advance(s, k, 1);
                 if t.off + 1 == |t.bytes| then Serve.Free(next, k) else next
  {
    assert [Serve.Wrote(1)][1..] == [];
  }

  lemma WriteOne(l: Loop)
    requires Serve.Sound(l.server) && Serve.Shaped(l.server) && ClipboardRead.Shaped(l.reader)
    requires Writing(l) && l.pipe == [] && l.capacity > 0
    ensures Enabled(l, Serving([Serve.Wrote(1)]))
    ensures Nearer(l, Next(l, Serving([Serve.Wrote(1)])))
  {
    hide Serve.Write, Serve.Sound;
    var s, k, writes := l.server, l.k, [Serve.Wrote(1)];
    Serve.WriteSound(s, k, writes);
    Serve.SoundShape(Serve.Write(s, k, writes));
    WriteOneByte(s, k);
    var after := Serve.Write(s, k, writes);
    assert QuietWrites(writes) && |Written(s, after, k)| <= 1;
    assert l.pipe + Written(s, after, k) == Written(s, after, k);
  }
}
