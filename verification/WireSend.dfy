/** The send half of the framed transport: whole frames go in, the kernel takes
  * as many bytes as it likes whenever it likes, and what it refuses is parked.
  * The stream that comes out must be the frames in order, each descriptor
  * attached once, to its frame's first byte. */
module WireSend {
  import opened Bytes
  import opened Codec
  import opened WireReceive

  const SLOT_BYTES := 64
  const QUEUE_SLOTS := 64

  /** Bytes still owed to the kernel, and the descriptor that must ride the
    * first of them. */
  datatype Item = Item(bytes: seq<Byte>, fd: int)

  /** A descriptor attached at a stream offset. */
  datatype Point = Point(offset: nat, fd: int)

  /** What the kernel has been given, and what it has not. */
  datatype Tx = Tx(emitted: seq<Byte>, attached: seq<Point>, items: seq<Item>)

  function Owed(items: seq<Item>): (bs: seq<Byte>)
  {
    if items == [] then [] else items[0].bytes + Owed(items[1..])
  }

  /** The one point a descriptor makes, or none. */
  function Mark(fd: int, at: nat): seq<Point>
  {
    if fd != NO_FD then [Point(at, fd)] else []
  }

  /** Where the owed descriptors will land if the first owed byte is at `base`. */
  function OwedPoints(items: seq<Item>, base: nat): (ps: seq<Point>)
  {
    if items == [] then []
    else Mark(items[0].fd, base) + OwedPoints(items[1..], base + |items[0].bytes|)
  }

  /** Where the descriptors of `frames` belong if the first frame is at `start`. */
  function Points(frames: seq<Delivery>, start: nat): (ps: seq<Point>)
  {
    if frames == [] then []
    else Mark(frames[0].fd, start) + Points(frames[1..], start + |frames[0].frame|)
  }

  /** Given and owed together are the frames offered, descriptors in place. */
  ghost predicate Lawful(tx: Tx, offered: seq<Delivery>)
  {
    && tx.emitted + Owed(tx.items) == Stream(offered)
    && tx.attached + OwedPoints(tx.items, |tx.emitted|) == Points(offered, 0)
    && (forall p | p in tx.attached :: p.offset < |tx.emitted|)
    && (forall item | item in tx.items && item.fd != NO_FD :: item.bytes != [])
  }

  /** What any reader of the stream may rely on, also after a failure: the bytes
    * are a prefix of the frames offered, and a descriptor has been attached
    * exactly at the frame starts that lie within it. */
  ghost predicate OnWire(emitted: seq<Byte>, attached: seq<Point>, offered: seq<Delivery>)
  {
    && emitted <= Stream(offered)
    && attached <= Points(offered, 0)
    && forall i | 0 <= i < |Points(offered, 0)| :: i < |attached| <==> Points(offered, 0)[i].offset < |emitted|
  }

  /** The kernel takes `n` bytes of the first item, and with the first of them
    * its descriptor. */
  function Emit(tx: Tx, n: nat): (r: Tx)
    requires tx.items != [] && n <= |tx.items[0].bytes|
    ensures |r.items| == |tx.items| && |r.items[0].bytes| == |tx.items[0].bytes| - n
  {
    var head := tx.items[0];
    Tx(tx.emitted + head.bytes[..n],
       if n > 0 && head.fd != NO_FD then tx.attached + [Point(|tx.emitted|, head.fd)] else tx.attached,
       [Item(head.bytes[n..], if n > 0 then NO_FD else head.fd)] + tx.items[1..])
  }

  lemma EmitTwice(tx: Tx, n: nat, j: nat)
    requires tx.items != [] && n + j <= |tx.items[0].bytes|
    ensures Emit(Emit(tx, n), j) == Emit(tx, n + j)
  {
    var bytes := tx.items[0].bytes;
    assert bytes[..n] + bytes[n..][..j] == bytes[..n + j];
    assert bytes[n..][j..] == bytes[n + j..];
  }

  /** The first bytes take the descriptor along; later ones only follow. */
  lemma EmitGrows(tx: Tx, n: nat, j: nat)
    requires tx.items != [] && n + j <= |tx.items[0].bytes| && j > 0
    ensures Emit(tx, n + j).emitted == Emit(tx, n).emitted + tx.items[0].bytes[n..n + j]
    ensures Emit(tx, n + j).attached == Emit(tx, n).attached + (if n == 0 then Mark(tx.items[0].fd, |tx.emitted|) else [])
    ensures Emit(tx, n + j).items != [] && Emit(tx, n + j).items[0].bytes == tx.items[0].bytes[n + j..]
  {
    var bytes := tx.items[0].bytes;
    assert bytes[..n + j] == bytes[..n] + bytes[n..n + j];
  }

  lemma EmitItems(tx: Tx, n: nat)
    requires tx.items != [] && n <= |tx.items[0].bytes|
    ensures var head := tx.items[0];
            Emit(tx, n).items == [Item(head.bytes[n..], if n > 0 then NO_FD else head.fd)] + tx.items[1..]
  {
  }

  lemma EmitNone(tx: Tx)
    requires tx.items != []
    ensures Emit(tx, 0) == tx
  {
    assert tx.items == [tx.items[0]] + tx.items[1..];
  }

  lemma {:induction false} OwedSnoc(items: seq<Item>, item: Item, base: nat)
    ensures Owed(items + [item]) == Owed(items) + item.bytes
    ensures OwedPoints(items + [item], base)
         == OwedPoints(items, base) + Mark(item.fd, base + |Owed(items)|)
  {
    if items == [] {
      assert items + [item] == [item];
    } else {
      hide Mark;
      assert (items + [item])[1..] == items[1..] + [item];
      OwedSnoc(items[1..], item, base + |items[0].bytes|);
      OwedStep(items + [item], base);
      OwedStep(items, base);
    }
  }

  lemma OwedStep(items: seq<Item>, base: nat)
    requires items != []
    ensures Owed(items) == items[0].bytes + Owed(items[1..])
    ensures OwedPoints(items, base) == Mark(items[0].fd, base) + OwedPoints(items[1..], base + |items[0].bytes|)
  {
  }

  lemma PointsStep(frames: seq<Delivery>, start: nat)
    requires frames != []
    ensures Points(frames, start) == Mark(frames[0].fd, start) + Points(frames[1..], start + |frames[0].frame|)
    ensures |Stream(frames)| == |frames[0].frame| + |Stream(frames[1..])|
  {
  }

  lemma {:induction false} PointsSnoc(frames: seq<Delivery>, d: Delivery, start: nat)
    ensures Points(frames + [d], start) == Points(frames, start) + Mark(d.fd, start + |Stream(frames)|)
  {
    if frames == [] {
      assert frames + [d] == [d];
    } else {
      var next := start + |frames[0].frame|;
      assert (frames + [d])[1..] == frames[1..] + [d];
      PointsSnoc(frames[1..], d, next);
      PointsStep(frames + [d], start);
      PointsStep(frames, start);
    }
  }

  lemma {:induction false} OfferLawful(tx: Tx, offered: seq<Delivery>, d: Delivery)
    requires Lawful(tx, offered) && d.frame != []
    ensures Lawful(tx.(items := tx.items + [Item(d.frame, d.fd)]), offered + [d])
  {
    hide Owed, OwedPoints, Points, Mark, Stream;
    OwedSnoc(tx.items, Item(d.frame, d.fd), |tx.emitted|);
    PointsSnoc(offered, d, 0);
    StreamSnoc(offered, d);
    assert |tx.emitted| + |Owed(tx.items)| == |Stream(offered)|;
  }

  lemma {:induction false} EmitLawful(tx: Tx, offered: seq<Delivery>, n: nat)
    requires Lawful(tx, offered) && tx.items != [] && n <= |tx.items[0].bytes|
    ensures Lawful(Emit(tx, n), offered)
  {
    hide Owed, OwedPoints, Points, Stream;
    EmitNone(tx);
    if n > 0 {
      var head, r := tx.items[0], Emit(tx, n);
      assert r.items[1..] == tx.items[1..];
      OwedStep(tx.items, |tx.emitted|);
      OwedStep(r.items, |r.emitted|);
      assert r.emitted + Owed(r.items) == tx.emitted + Owed(tx.items) by {
        assert head.bytes == head.bytes[..n] + head.bytes[n..];
        Regrouped(tx.emitted, head.bytes[..n], head.bytes[n..], Owed(tx.items[1..]));
      }
      Regrouped(tx.attached, Mark(head.fd, |tx.emitted|), [], OwedPoints(tx.items[1..], |tx.emitted| + |head.bytes|));
    }
  }

  lemma Regrouped<T>(a: seq<T>, b: seq<T>, c: seq<T>, d: seq<T>)
    ensures a + b + (c + d) == a + (b + c + d)
  {
  }

  lemma {:induction false} DropEmptyLawful(tx: Tx, offered: seq<Delivery>)
    requires Lawful(tx, offered) && tx.items != [] && tx.items[0].bytes == []
    ensures Lawful(tx.(items := tx.items[1..]), offered)
  {
  }

  lemma {:induction false} OwedPointsLater(items: seq<Item>, base: nat)
    ensures forall p | p in OwedPoints(items, base) :: p.offset >= base
    decreases |items|
  {
    if items != [] {
      OwedPointsLater(items[1..], base + |items[0].bytes|);
    }
  }

  lemma {:induction false} LawfulOnWire(tx: Tx, offered: seq<Delivery>)
    requires Lawful(tx, offered)
    ensures OnWire(tx.emitted, tx.attached, offered)
  {
    var later := OwedPoints(tx.items, |tx.emitted|);
    OwedPointsLater(tx.items, |tx.emitted|);
    var ps := Points(offered, 0);
    forall i | 0 <= i < |ps| ensures i < |tx.attached| <==> ps[i].offset < |tx.emitted| {
      assert ps[i] == if i < |tx.attached| then tx.attached[i] else later[i - |tx.attached|];
    }
  }

  /** The checks a caller's frame must pass before any byte is written. */
  predicate WellFormed(frame: seq<Byte>, fd: int)
  {
    && HEADER_LEN <= |frame| <= MAX_FRAME
    && !(|frame| > SLOT_BYTES && fd >= 0)
    && ParseHeader(frame).size == |frame|
    && (ParseHeader(frame).fdCount == 1) == (fd >= 0)
  }

  /** Every frame offered passed them. */
  ghost predicate Checked(offered: seq<Delivery>)
  {
    forall d | d in offered :: d.fd >= NO_FD && WellFormed(d.frame, d.fd)
  }

  /** The checks let through exactly one kind of frame a receiver will not take:
    * one that declares several descriptors and carries none. */
  lemma CheckedIsDeclaredIff(frame: seq<Byte>, fd: int)
    requires fd >= NO_FD && WellFormed(frame, fd)
    ensures Framed(Delivery(frame, fd))
    ensures Declared(Delivery(frame, fd)) <==> ParseHeader(frame).fdCount <= 1
    ensures Overdeclares(Delivery(frame, fd)) <==> ParseHeader(frame).fdCount > 1
  {
  }

  lemma FrameShape(frame: seq<Byte>, fd: int)
    requires WellFormed(frame, fd)
    ensures frame != [] && (|frame| > SLOT_BYTES ==> fd < 0)
  {
  }

  // ---- writing, flushing, sending -------------------------------------------

  type Positive = n: int | n > 0 witness 1

  /** How one `sendmsg` or `send` comes back; an interrupted call is made again,
    * and no call takes more than it was offered. */
  datatype Outcome = Took(n: Positive) | WouldBlock | PeerGone | Broken

  /** Up, the peer gone, or failed. */
  datatype End = Up | Gone | Torn

  /** The sender: what is given and owed, whether the first item owed is the
    * oversized one, how the connection stands, and what the kernel will say next.
    * When it has no more to say it is full. */
  datatype Out = Out(tx: Tx, big: bool, end: End, kernel: seq<Outcome>)

  /** Nothing parked is empty. */
  predicate NoneEmpty(items: seq<Item>)
  {
    forall i | 0 <= i < |items| :: items[i].bytes != []
  }

  /** How much of the first item is owed. */
  function Front(o: Out): nat
    requires o.tx.items != []
  {
    |o.tx.items[0].bytes|
  }

  /** `wire_write` of the first item: until it is gone, the kernel is full, or the
    * connection is over. */
  function Pour(o: Out): (r: Out)
    requires o.end.Up? && o.tx.items != [] && Front(o) > 0
    ensures r.big == o.big && r.tx.items != [] && r.tx.items[1..] == o.tx.items[1..]
    ensures Front(r) <= Front(o) && |r.kernel| <= |o.kernel| && (Front(r) < Front(o) ==> |r.kernel| < |o.kernel|)
    decreases |o.kernel|
  {
    if o.kernel == [] then o
    else
      var rest := o.kernel[1..];
      match o.kernel[0]
      case WouldBlock => o.(kernel := rest)
      case PeerGone => o.(end := Gone, kernel := rest)
      case Broken => o.(end := Torn, kernel := rest)
      case Took(n) =>
        var next := o.(tx := Emit(o.tx, if n < Front(o) then n else Front(o)), kernel := rest);
        if Front(next) == 0 then next else Pour(next)
  }

  /** `wire_flush`: an oversized item is tried again until a try takes nothing; the
    * others wait as soon as one is not gone at once. */
  function Flushed(o: Out): (r: Out)
    requires o.end.Up? && NoneEmpty(o.tx.items)
    ensures r.end.Up? ==> NoneEmpty(r.tx.items)
    decreases |o.tx.items|, |o.kernel|
  {
    if o.tx.items == [] then o
    else
      var p := Pour(o);
      assert forall i | 0 < i < |p.tx.items| :: p.tx.items[i] == p.tx.items[1..][i - 1];
      if !p.end.Up? then p
      else if Front(p) == 0 then Flushed(p.(tx := p.tx.(items := p.tx.items[1..]), big := false))
      else if o.big && Front(p) < Front(o) then Flushed(p)
      else p
  }

  /** `wire_park`; `dup` is whether a descriptor can be duplicated. */
  function Parking(o: Out, tail: seq<Byte>, fd: int, dup: bool): Out
  {
    if |tail| > SLOT_BYTES then
      if o.tx.items != [] then o.(end := Torn) else o.(tx := o.tx.(items := [Item(tail, fd)]), big := true)
    else if |o.tx.items| - (if o.big then 1 else 0) >= QUEUE_SLOTS || (fd != NO_FD && !dup) then o.(end := Torn)
    else o.(tx := o.tx.(items := o.tx.items + [Item(tail, fd)]))
  }

  /** A frame with nothing parked ahead of it. */
  function Passing(o: Out, frame: seq<Byte>, fd: int, dup: bool): Out
    requires o.end.Up? && frame != []
  {
    var p := Pour(o.(tx := o.tx.(items := [Item(frame, fd)])));
    var left, idle := p.tx.items[0], p.(tx := p.tx.(items := []), big := false);
    if !p.end.Up? || left.bytes == [] then idle else Parking(idle, left.bytes, left.fd, dup)
  }

  /** `vitrin_wire_send` */
  function Sending(o: Out, frame: seq<Byte>, fd: int, dup: bool): Out
    requires o.end.Up? && NoneEmpty(o.tx.items)
  {
    if !WellFormed(frame, fd) then o.(end := Torn)
    else
      var f := Flushed(o);
      if !f.end.Up? then f
      else if f.tx.items == [] then Passing(f, frame, fd, dup)
      else Parking(f, frame, fd, dup)
  }

  lemma {:induction false} PourEmits(o: Out)
    requires o.end.Up? && o.tx.items != [] && Front(o) > 0
    ensures Pour(o).tx == Emit(o.tx, Front(o) - Front(Pour(o)))
    decreases |o.kernel|
  {
    hide Pour, Emit;
    PourStep(o);
    EmitNone(o.tx);
    if o.kernel != [] && o.kernel[0].Took? {
      var m := if o.kernel[0].n < Front(o) then o.kernel[0].n else Front(o);
      var next := o.(tx := Emit(o.tx, m), kernel := o.kernel[1..]);
      if Front(next) > 0 {
        PourEmits(next);
        EmitTwice(o.tx, m, Front(next) - Front(Pour(next)));
      }
    }
  }

  /** One call of the kernel. */
  lemma PourStep(o: Out)
    requires o.end.Up? && o.tx.items != [] && Front(o) > 0
    ensures o.kernel == [] ==> Pour(o) == o
    ensures o.kernel != [] && o.kernel[0].WouldBlock? ==> Pour(o) == o.(kernel := o.kernel[1..])
    ensures o.kernel != [] && o.kernel[0].PeerGone? ==> Pour(o) == o.(end := Gone, kernel := o.kernel[1..])
    ensures o.kernel != [] && o.kernel[0].Broken? ==> Pour(o) == o.(end := Torn, kernel := o.kernel[1..])
    ensures o.kernel != [] && o.kernel[0].Took? ==>
              var m := if o.kernel[0].n < Front(o) then o.kernel[0].n else Front(o);
              var next := o.(tx := Emit(o.tx, m), kernel := o.kernel[1..]);
              Pour(o) == if Front(next) == 0 then next else Pour(next)
  {
  }

  /** One turn of the flush. */
  lemma FlushStep(o: Out)
    requires o.end.Up? && NoneEmpty(o.tx.items)
    ensures o.tx.items == [] ==> Flushed(o) == o
    ensures o.tx.items != [] ==>
              var p := Pour(o);
              var next := if Front(p) == 0 then p.(tx := p.tx.(items := p.tx.items[1..]), big := false) else p;
              if !p.end.Up? || (Front(p) > 0 && !(o.big && Front(p) < Front(o))) then Flushed(o) == p
              else NoneEmpty(next.tx.items) && Flushed(o) == Flushed(next)
  {
    if o.tx.items != [] {
      var p := Pour(o);
      assert forall i | 0 < i < |p.tx.items| :: p.tx.items[i] == p.tx.items[1..][i - 1];
    }
  }

  // ---- when the sender stops, and when everything goes ------------------------

  /** The outcomes consumed between two states. */
  function Heard(o: Out, r: Out): seq<Outcome>
    requires |r.kernel| <= |o.kernel|
  {
    o.kernel[..|o.kernel| - |r.kernel|]
  }

  /** The kernel had its say, and last that it is full. */
  predicate StoppedFull(o: Out, r: Out)
  {
    && |r.kernel| <= |o.kernel| && o.kernel == Heard(o, r) + r.kernel
    && (r.kernel != [] ==> Heard(o, r) != [] && Heard(o, r)[|Heard(o, r)| - 1] == WouldBlock)
  }

  /** What came first was heard first. */
  lemma HeardThrough(o: Out, p: Out, r: Out)
    requires |r.kernel| <= |p.kernel| <= |o.kernel|
    requires o.kernel == Heard(o, p) + p.kernel && p.kernel == Heard(p, r) + r.kernel
    ensures Heard(o, r) == Heard(o, p) + Heard(p, r) && o.kernel == Heard(o, r) + r.kernel
  {
  }

  lemma {:induction false} PourStops(o: Out)
    requires o.end.Up? && o.tx.items != [] && Front(o) > 0
    ensures o.kernel == Heard(o, Pour(o)) + Pour(o).kernel
    ensures Pour(o).end.Up? && Front(Pour(o)) > 0 ==> StoppedFull(o, Pour(o))
    decreases |o.kernel|
  {
    hide Pour, Emit;
    PourStep(o);
    if o.kernel != [] && o.kernel[0].Took? {
      var m := if o.kernel[0].n < Front(o) then o.kernel[0].n else Front(o);
      var next := o.(tx := Emit(o.tx, m), kernel := o.kernel[1..]);
      if Front(next) > 0 {
        PourStops(next);
        HeardThrough(o, next, Pour(next));
      }
    }
  }

  /** A flush that leaves something parked on a living connection stopped because
    * the kernel said it was full. */
  lemma {:induction false} FlushStops(o: Out)
    requires o.end.Up? && NoneEmpty(o.tx.items)
    ensures |Flushed(o).kernel| <= |o.kernel| && o.kernel == Heard(o, Flushed(o)) + Flushed(o).kernel
    ensures Flushed(o).end.Up? && Flushed(o).tx.items != [] ==> StoppedFull(o, Flushed(o))
    decreases |o.tx.items|, |o.kernel|
  {
    hide Pour, Flushed;
    FlushStep(o);
    if o.tx.items != [] {
      var p := Pour(o);
      PourStops(o);
      if p.end.Up? && Front(p) == 0 {
        var next := p.(tx := p.tx.(items := p.tx.items[1..]), big := false);
        FlushStops(next);
        HeardThrough(o, p, Flushed(next));
      } else if p.end.Up? && o.big && Front(p) < Front(o) {
        FlushStops(p);
        HeardThrough(o, p, Flushed(p));
      }
    }
  }

  /** A kernel that takes something every time. */
  predicate Generous(kernel: seq<Outcome>)
  {
    forall i | 0 <= i < |kernel| :: kernel[i].Took?
  }

  lemma {:induction false} PourAll(o: Out)
    requires o.end.Up? && o.tx.items != [] && 0 < Front(o) <= |o.kernel| && Generous(o.kernel)
    ensures var r := Pour(o);
            && r.end.Up? && r.tx == Emit(o.tx, Front(o)) && Generous(r.kernel) && |r.kernel| >= |o.kernel| - Front(o)
    decreases |o.kernel|
  {
    var m := if o.kernel[0].n < Front(o) then o.kernel[0].n else Front(o);
    var next := o.(tx := Emit(o.tx, m), kernel := o.kernel[1..]);
    if Front(next) > 0 {
      PourAll(next);
      EmitTwice(o.tx, m, Front(next));
    }
  }

  /** Given a kernel that keeps taking, a flush sends everything parked. */
  lemma {:induction false} FlushAll(o: Out)
    requires o.end.Up? && NoneEmpty(o.tx.items) && Generous(o.kernel) && |o.kernel| >= |Owed(o.tx.items)|
    ensures var r := Flushed(o);
            && r.end.Up? && r.tx.items == [] && r.tx.emitted == o.tx.emitted + Owed(o.tx.items)
            && r.tx.attached == o.tx.attached + OwedPoints(o.tx.items, |o.tx.emitted|)
            && Generous(r.kernel) && |r.kernel| >= |o.kernel| - |Owed(o.tx.items)|
    decreases |o.tx.items|
  {
    hide Flushed, Pour, Emit, Owed, OwedPoints;
    FlushStep(o);
    if o.tx.items == [] {
      NothingOwed(|o.tx.emitted|);
    } else {
      OwedStep(o.tx.items, |o.tx.emitted|);
      PourAll(o);
      EmitWhole(o.tx);
      var p := Pour(o);
      FlushAll(p.(tx := p.tx.(items := p.tx.items[1..]), big := false));
    }
  }

  /** So every frame offered so far is then on the wire, descriptors and all. */
  lemma FlushDelivers(o: Out, offered: seq<Delivery>)
    requires o.end.Up? && NoneEmpty(o.tx.items) && Lawful(o.tx, offered)
    requires Generous(o.kernel) && |o.kernel| >= |Owed(o.tx.items)|
    ensures var r := Flushed(o);
            && r.end.Up? && r.tx.items == [] && r.tx.emitted == Stream(offered) && r.tx.attached == Points(offered, 0)
  {
    hide Flushed;
    FlushAll(o);
  }

  lemma NothingOwed(base: nat)
    ensures Owed([]) == [] && OwedPoints([], base) == []
  {
  }

  lemma EmitWhole(tx: Tx)
    requires tx.items != [] && tx.items[0].bytes != []
    ensures var r := Emit(tx, |tx.items[0].bytes|);
            && r.emitted == tx.emitted + tx.items[0].bytes && r.attached == tx.attached + Mark(tx.items[0].fd, |tx.emitted|)
            && r.items[0].bytes == [] && r.items[1..] == tx.items[1..]
  {
  }

  /** And a send on an idle sender sends the whole frame with its descriptor. */
  lemma SendAll(o: Out, frame: seq<Byte>, fd: int, dup: bool)
    requires o.end.Up? && o.tx.items == [] && !o.big && WellFormed(frame, fd)
    requires Generous(o.kernel) && |o.kernel| >= |frame|
    ensures var r := Sending(o, frame, fd, dup);
            && r.end.Up? && r.tx == Tx(o.tx.emitted + frame, o.tx.attached + Mark(fd, |o.tx.emitted|), [])
  {
    PourAll(o.(tx := o.tx.(items := [Item(frame, fd)])));
  }

  /** Short of an error from the kernel a send fails for want of room alone: a
    * second oversized frame, or a sixty-fifth small one. */
  lemma SendFailsIff(o: Out, frame: seq<Byte>, fd: int)
    requires o.end.Up? && NoneEmpty(o.tx.items) && WellFormed(frame, fd) && (o.big ==> o.tx.items != [])
    requires Peaceful(o.kernel)
    ensures var f := Flushed(o);
            && f.end.Up?
            && (!Sending(o, frame, fd, true).end.Up? <==>
                  f.tx.items != [] && (|frame| > SLOT_BYTES || |f.tx.items| - (if f.big then 1 else 0) >= QUEUE_SLOTS))
  {
    hide Flushed, Pour, WellFormed;
    FlushSurvives(o);
    assert frame != [] by {
      FrameShape(frame, fd);
    }
    var f := Flushed(o);
    if f.tx.items == [] {
      PourSurvives(f.(tx := f.tx.(items := [Item(frame, fd)])));
    }
  }

  predicate Peaceful(kernel: seq<Outcome>)
  {
    forall i | 0 <= i < |kernel| :: kernel[i].Took? || kernel[i].WouldBlock?
  }

  lemma {:induction false} PourSurvives(o: Out)
    requires o.end.Up? && o.tx.items != [] && Front(o) > 0 && Peaceful(o.kernel)
    ensures Pour(o).end.Up? && Peaceful(Pour(o).kernel)
    decreases |o.kernel|
  {
    if o.kernel != [] && o.kernel[0].Took? {
      var m := if o.kernel[0].n < Front(o) then o.kernel[0].n else Front(o);
      var next := o.(tx := Emit(o.tx, m), kernel := o.kernel[1..]);
      if Front(next) > 0 {
        PourSurvives(next);
      }
    }
  }

  lemma {:induction false} FlushSurvives(o: Out)
    requires o.end.Up? && NoneEmpty(o.tx.items) && Peaceful(o.kernel)
    ensures Flushed(o).end.Up? && Peaceful(Flushed(o).kernel)
    decreases |o.tx.items|, |o.kernel|
  {
    if o.tx.items != [] {
      PourSurvives(o);
      var p := Pour(o);
      assert forall i | 0 < i < |p.tx.items| :: p.tx.items[i] == p.tx.items[1..][i - 1];
      if Front(p) == 0 {
        FlushSurvives(p.(tx := p.tx.(items := p.tx.items[1..]), big := false));
      } else if o.big && Front(p) < Front(o) {
        FlushSurvives(p);
      }
    }
  }

  // ---- the transport object ------------------------------------------------

  datatype Slot = Slot(bytes: seq<Byte>, offset: nat, fd: int) {
    function Rest(): seq<Byte>
    {
      if offset <= |bytes| then bytes[offset..] else []
    }
  }

  function QueueItems(queue: seq<Slot>): (items: seq<Item>)
    ensures |items| == |queue|
  {
    seq(|queue|, i requires 0 <= i < |queue| => Item(queue[i].Rest(), queue[i].fd))
  }

  /** A slot after `n` more of its bytes went out. */
  function Moved(slot: Slot, n: nat): Slot
  {
    Slot(slot.bytes, slot.offset + n, if n > 0 then NO_FD else slot.fd)
  }

  lemma SlotAtFront(queue: seq<Slot>)
    requires queue != [] && forall slot | slot in queue :: slot.offset < |slot.bytes|
    ensures QueueItems(queue)[0] == Item(queue[0].Rest(), queue[0].fd) && queue[0].Rest() != []
  {
  }

  lemma SlotMoves(queue: seq<Slot>, n: nat)
    requires queue != [] && (forall slot | slot in queue :: slot.offset < |slot.bytes|) && n <= |queue[0].Rest()|
    ensures var slot, moved := queue[0], Moved(queue[0], n);
            && QueueItems(queue[1..]) == QueueItems(queue)[1..]
            && QueueItems([moved] + queue[1..])
               == [Item(slot.Rest()[n..], if n > 0 then NO_FD else slot.fd)] + QueueItems(queue)[1..]
            && |slot.Rest()[n..]| == |moved.bytes| - moved.offset
            && (forall s | s in queue[1..] :: s.offset < |s.bytes|)
            && (moved.offset < |moved.bytes| ==> forall s | s in [moved] + queue[1..] :: s.offset < |s.bytes|)
  {
    var moved := Moved(queue[0], n);
    assert moved.Rest() == queue[0].Rest()[n..];
  }

  /** The send side of `struct vitrin_wire`: one oversized slot drained first and
    * a bounded queue behind it. The ghost fields record the socket and the
    * caller's history; a descriptor and its duplicate count as the same one. */
  class Sender {
    var failed: bool
    var eof: bool
    var big: seq<Byte>
    var bigOffset: nat
    var queue: seq<Slot>
    ghost var emitted: seq<Byte>
    ghost var attached: seq<Point>
    ghost var offered: seq<Delivery>

    predicate Alive()
      reads this
    {
      !failed && !eof
    }

    ghost function BigItems(): seq<Item>
      reads this
    {
      if bigOffset < |big| then [Item(big[bigOffset..], NO_FD)] else []
    }

    ghost function View(): Tx
      reads this
    {
      Tx(emitted, attached, BigItems() + QueueItems(queue))
    }

    ghost predicate Valid()
      reads this
    {
      && bigOffset <= |big| && |queue| <= QUEUE_SLOTS
      && (forall slot | slot in queue :: slot.offset < |slot.bytes|)
      && Checked(offered) && OnWire(emitted, attached, offered)
      && (Alive() ==> Lawful(View(), offered))
    }

    predicate NothingParked()
      reads this
    {
      bigOffset >= |big| && queue == []
    }

    constructor ()
      ensures Valid() && Alive() && NothingParked() && offered == [] && emitted == []
    {
      failed, eof, big, bigOffset, queue := false, false, [], 0, [];
      emitted, attached, offered := [], [], [];
    }

    ghost function Status(): End
      reads this
    {
      if failed then Torn else if eof then Gone else Up
    }

    ghost function Now(kernel: seq<Outcome>): Out
      reads this
    {
      Out(View(), bigOffset < |big|, Status(), kernel)
    }

    /** The sender stands as `o` says; of a connection that is over only what went
      * out still counts. */
    ghost predicate Is(o: Out)
      reads this
    {
      && emitted == o.tx.emitted && attached == o.tx.attached && Status() == o.end
      && (o.end.Up? ==> View() == o.tx && (bigOffset < |big|) == o.big)
    }

    /** `wire_write`: the descriptor rides the first write that takes a byte;
      * the rest follows until the kernel is full. Zero means nothing went out,
      * -1 that the connection is over. */
    method Write(bytes: seq<Byte>, fd: int, kernel: seq<Outcome>, ghost o: Out) returns (n: int, rest: seq<Outcome>)
      requires Alive() && bytes != [] && o.end.Up? && o.kernel == kernel
      requires o.tx.emitted == emitted && o.tx.attached == attached && o.tx.items != [] && o.tx.items[0] == Item(bytes, fd)
      modifies this`failed, this`eof, this`emitted, this`attached
      ensures var p := Pour(o);
              && emitted == p.tx.emitted && attached == p.tx.attached && Status() == p.end && rest == p.kernel
              && n == if p.end.Up? then |bytes| - Front(p) else -1
    {
      hide Pour;
      PourStep(o);
      if kernel == [] {
        return 0, [];
      }
      rest := kernel[1..];
      match kernel[0]
      case WouldBlock => return 0, rest;
      case PeerGone => eof := true; return -1, rest;
      case Broken => failed := true; return -1, rest;
      case Took(m) =>
        var sent: int := if m < |bytes| then m else |bytes|;
        EmitNone(o.tx);
        EmitGrows(o.tx, 0, sent);
        emitted := emitted + bytes[..sent];
        attached := if fd != NO_FD then attached + [Point(|o.tx.emitted|, fd)] else attached;
        if sent == |bytes| {
          return sent, rest;
        }
        n, rest := WriteRest(bytes, sent, rest, o, o.(tx := Emit(o.tx, sent), kernel := rest));
    }

    /** The plain sends after the first, which took `first` bytes. */
    method WriteRest(bytes: seq<Byte>, first: nat, kernel: seq<Outcome>, ghost o: Out, ghost from: Out)
      returns (n: int, rest: seq<Outcome>)
      requires Alive() && o.end.Up? && o.tx.items != [] && o.tx.items[0].bytes == bytes && 0 < first < |bytes|
      requires from == o.(tx := Emit(o.tx, first), kernel := kernel)
      requires emitted == from.tx.emitted && attached == from.tx.attached
      modifies this`failed, this`eof, this`emitted, this`attached
      ensures var p := Pour(from);
              && emitted == p.tx.emitted && attached == p.tx.attached && Status() == p.end && rest == p.kernel
              && n == if p.end.Up? then |bytes| - Front(p) else -1
    {
      hide Pour, Emit;
      EmitGrows(o.tx, 0, first);
      var sent := first;
      rest := kernel;
      while true
        invariant 0 < sent < |bytes| && Alive()
        invariant emitted == Emit(o.tx, sent).emitted && attached == Emit(o.tx, sent).attached
        invariant Emit(o.tx, sent).items != [] && Emit(o.tx, sent).items[0].bytes == bytes[sent..]
        invariant Pour(from) == Pour(o.(tx := Emit(o.tx, sent), kernel := rest))
        decreases |rest|
      {
        PourStep(o.(tx := Emit(o.tx, sent), kernel := rest));
        if rest == [] {
          return sent, rest;
        }
        var more := rest[0];
        rest := rest[1..];
        match more {
          case WouldBlock => return sent, rest;
          case PeerGone => eof := true; return -1, rest;
          case Broken => failed := true; return -1, rest;
          case Took(j) =>
            var k: int := if j < |bytes| - sent then j else |bytes| - sent;
            EmitTwice(o.tx, sent, k);
            EmitGrows(o.tx, sent, k);
            emitted := emitted + bytes[sent..sent + k];
            sent := sent + k;
        }
        if sent == |bytes| {
          return sent, rest;
        }
      }
    }

    /** One write of the oversized slot. */
    method WriteBig(kernel: seq<Outcome>) returns (n: int, rest: seq<Outcome>)
      requires Valid() && Alive() && bigOffset < |big|
      modifies this`failed, this`eof, this`emitted, this`attached, this`bigOffset
      ensures Valid() && rest == Pour(old(Now(kernel))).kernel
      ensures var p := Pour(old(Now(kernel)));
              && n == (if p.end.Up? then Front(old(Now(kernel))) - Front(p) else -1)
              && Is(if p.end.Up? && Front(p) == 0 then p.(tx := p.tx.(items := p.tx.items[1..]), big := false) else p)
      ensures bigOffset == if n >= 0 then old(bigOffset) + n else old(bigOffset)
    {
      hide Lawful, OnWire, Pour;
      ghost var o := Now(kernel);
      n, rest := Write(big[bigOffset..], NO_FD, kernel, o);
      ghost var p := Pour(o);
      PourEmits(o);
      EmitLawful(o.tx, offered, Front(o) - Front(p));
      LawfulOnWire(p.tx, offered);
      if n < 0 {
        return;
      }
      assert o.tx.items[1..] == QueueItems(queue);
      bigOffset := bigOffset + n;
      if bigOffset == |big| {
        DropEmptyLawful(p.tx, offered);
        assert p.tx.items[1..] == BigItems() + QueueItems(queue);
      } else {
        assert View().items == p.tx.items;
      }
    }

    /** One write of the oldest queued slot, dropped once it is empty. */
    method WriteSlot(kernel: seq<Outcome>) returns (n: int, rest: seq<Outcome>)
      requires Valid() && Alive() && bigOffset >= |big| && queue != []
      modifies this`failed, this`eof, this`emitted, this`attached, this`queue
      ensures Valid() && rest == Pour(old(Now(kernel))).kernel
      ensures var p := Pour(old(Now(kernel)));
              && (n >= 0 <==> p.end.Up?)
              && Is(if p.end.Up? && Front(p) == 0 then p.(tx := p.tx.(items := p.tx.items[1..]), big := false) else p)
              && (p.end.Up? ==> |queue| == if Front(p) == 0 then |old(queue)| - 1 else |old(queue)|)
    {
      hide Lawful, OnWire, QueueItems, Pour, Emit;
      ghost var o := Now(kernel);
      var slot := queue[0];
      SlotAtFront(queue);
      assert BigItems() == [];
      n, rest := Write(slot.Rest(), slot.fd, kernel, o);
      ghost var p := Pour(o);
      PourEmits(o);
      EmitLawful(o.tx, offered, Front(o) - Front(p));
      LawfulOnWire(p.tx, offered);
      if n < 0 {
        return;
      }
      EmitItems(o.tx, n);
      SlotMoves(queue, n);
      var moved := Moved(slot, n);
      if moved.offset < |moved.bytes| {
        queue := [moved] + queue[1..];
        assert View() == p.tx;
      } else {
        DropEmptyLawful(p.tx, offered);
        queue := queue[1..];
        assert View() == p.tx.(items := p.tx.items[1..]);
      }
    }

    /** `wire_flush`: the oversized slot, then the queue, as far as the kernel
      * allows. */
    method Flush(kernel: seq<Outcome>) returns (ok: bool, rest: seq<Outcome>)
      requires Valid() && Alive()
      modifies this
      ensures Valid() && offered == old(offered) && ok == Alive()
      ensures NoneEmpty(old(View()).items) && Is(Flushed(old(Now(kernel)))) && rest == Flushed(old(Now(kernel))).kernel
    {
      hide Lawful, OnWire, Pour, Flushed;
      ParkedNonEmpty();
      ghost var goal := Flushed(Now(kernel));
      rest := kernel;
      while bigOffset < |big|
        invariant Valid() && Alive() && offered == old(offered)
        invariant NoneEmpty(View().items) && Flushed(Now(rest)) == goal
        decreases |big| - bigOffset
      {
        FlushStep(Now(rest));
        var n;
        n, rest := WriteBig(rest);
        if n < 0 {
          return false, rest;
        }
        if n == 0 {
          return true, rest;
        }
        ParkedNonEmpty();
      }
      big, bigOffset := [], 0;
      while queue != []
        invariant Valid() && Alive() && offered == old(offered) && bigOffset >= |big|
        invariant NoneEmpty(View().items) && Flushed(Now(rest)) == goal
        decreases |queue|
      {
        FlushStep(Now(rest));
        var before := |queue|;
        var n;
        n, rest := WriteSlot(rest);
        if n < 0 {
          return false, rest;
        }
        if |queue| == before {
          return true, rest;
        }
        ParkedNonEmpty();
      }
      FlushStep(Now(rest));
      return true, rest;
    }

    lemma ParkedNonEmpty()
      requires Valid()
      ensures NoneEmpty(View().items)
    {
    }

    /** `wire_park`: keep what the kernel refused. `tail` is the unsent end of
      * the newest frame, `dup` whether its descriptor can be duplicated. */
    method Park(tail: seq<Byte>, fd: int, dup: bool, ghost kernel: seq<Outcome>) returns (ok: bool)
      requires Alive() && tail != [] && (|tail| > SLOT_BYTES ==> fd == NO_FD) && Checked(offered)
      requires bigOffset <= |big| && |queue| <= QUEUE_SLOTS && forall slot | slot in queue :: slot.offset < |slot.bytes|
      requires Lawful(View().(items := View().items + [Item(tail, fd)]), offered)
      modifies this`failed, this`big, this`bigOffset, this`queue
      ensures Valid() && ok == Alive() && Is(Parking(old(Now(kernel)), tail, fd, dup))
    {
      hide Lawful, OnWire;
      LawfulOnWire(View().(items := View().items + [Item(tail, fd)]), offered);
      if |tail| > SLOT_BYTES {
        if bigOffset < |big| || queue != [] {
          failed := true;
          return false;
        }
        big, bigOffset := tail, 0;
        assert BigItems() + QueueItems(queue) == [] + QueueItems(queue) + [Item(tail, fd)];
        return true;
      }
      if |queue| >= QUEUE_SLOTS {
        failed := true;
        return false;
      }
      if fd != NO_FD && !dup {
        failed := true;
        return false;
      }
      assert QueueItems(queue + [Slot(tail, 0, fd)]) == QueueItems(queue) + [Item(tail, fd)];
      assert BigItems() + (QueueItems(queue) + [Item(tail, fd)]) == View().items + [Item(tail, fd)];
      queue := queue + [Slot(tail, 0, fd)];
      return true;
    }

    /** Write a frame just offered, with nothing parked ahead of it, and park
      * the tail the kernel refused. */
    method WriteThrough(frame: seq<Byte>, fd: int, dup: bool, kernel: seq<Outcome>) returns (ok: bool, rest: seq<Outcome>)
      requires Alive() && NothingParked() && bigOffset <= |big| && frame != [] && Checked(offered)
      requires |frame| > SLOT_BYTES ==> fd == NO_FD
      requires Lawful(Tx(emitted, attached, [Item(frame, fd)]), offered)
      modifies this
      ensures Valid() && ok == Alive() && offered == old(offered)
      ensures var r := Passing(old(Now(kernel)), frame, fd, dup); Is(r) && rest == r.kernel
    {
      hide Lawful, OnWire, Pour;
      ghost var o := Now(kernel).(tx := Tx(emitted, attached, [Item(frame, fd)]));
      var n;
      n, rest := Write(frame, fd, kernel, o);
      ghost var p := Pour(o);
      PourEmits(o);
      EmitLawful(o.tx, offered, Front(o) - Front(p));
      LawfulOnWire(p.tx, offered);
      if n < 0 {
        return false, rest;
      }
      assert View().items == [];
      if n == |frame| {
        DropEmptyLawful(p.tx, offered);
        return true, rest;
      }
      assert p.tx.items == [] + [Item(frame[n..], if n > 0 then NO_FD else fd)];
      ok := Park(frame[n..], if n == 0 then fd else NO_FD, dup, rest);
    }

    /** `vitrin_wire_send` */
    method Send(frame: seq<Byte>, fd: int, dup: bool, kernel: seq<Outcome>) returns (ok: bool)
      requires Valid() && fd >= NO_FD
      modifies this
      ensures Valid() && ok == (old(Alive()) && Alive())
      ensures offered == if old(Alive()) && WellFormed(frame, fd) then old(offered) + [Delivery(frame, fd)] else old(offered)
      ensures NoneEmpty(old(View()).items)
      ensures if old(Alive()) then Is(Sending(old(Now(kernel)), frame, fd, dup))
              else emitted == old(emitted) && attached == old(attached) && Status() == old(Status())
    {
      hide Lawful, OnWire, WellFormed, Flushed, Pour;
      ParkedNonEmpty();
      if !Alive() {
        return false;
      }
      if !WellFormed(frame, fd) {
        failed := true;
        return false;
      }
      FrameShape(frame, fd);
      ok := true;
      var rest := kernel;
      if !NothingParked() {
        ok, rest := Flush(kernel);
      } else {
        FlushStep(Now(kernel));
      }
      ghost var tx, before := View(), offered;
      offered := offered + [Delivery(frame, fd)];
      if !ok {
        OnWireMore(emitted, attached, before, Delivery(frame, fd));
        return;
      }
      OfferLawful(tx, before, Delivery(frame, fd));
      if !NothingParked() {
        ok := Park(frame, fd, dup, rest);
      } else {
        assert tx.items + [Item(frame, fd)] == [Item(frame, fd)];
        ok, rest := WriteThrough(frame, fd, dup, rest);
      }
    }
  }

  lemma OnWireMore(emitted: seq<Byte>, attached: seq<Point>, offered: seq<Delivery>, d: Delivery)
    requires OnWire(emitted, attached, offered)
    ensures OnWire(emitted, attached, offered + [d])
  {
    StreamSnoc(offered, d);
    PointsSnoc(offered, d, 0);
  }
}
