/** The two halves joined: frames offered to a sender on one side of the socket
  * come out of the receiver on the other side unchanged, whatever the kernel
  * does with writes at one end and reads at the other. */
module WireLink {
  import opened Bytes
  import opened Codec
  import opened WireReceive
  import opened WireSend

  /** The descriptors attached at stream offsets in `[from, to)`. */
  function FdsWithin(attached: seq<Point>, from: nat, to: nat): (fds: seq<int>)
  {
    if attached == [] then []
    else (if from <= attached[0].offset < to then [attached[0].fd] else []) + FdsWithin(attached[1..], from, to)
  }

  /** What the kernel hands the reader for reads of the given sizes. */
  function Cut(emitted: seq<Byte>, attached: seq<Point>, chunks: seq<nat>): (arrivals: seq<Arrival>)
    requires Sum(chunks) <= |emitted|
    ensures |arrivals| == |chunks|
  {
    if chunks == [] then []
    else
      var before := chunks[..|chunks| - 1];
      Cut(emitted, attached, before)
      + [Arrival(emitted[Sum(before)..Sum(chunks)], FdsWithin(attached, Sum(before), Sum(chunks)), false)]
  }

  /** No read joins two descriptor batches. */
  predicate KernelRule(arrivals: seq<Arrival>)
  {
    forall a | a in arrivals :: |a.fds| <= 1
  }

  lemma {:induction false} FdsWithinAppend(p: seq<Point>, q: seq<Point>, from: nat, to: nat)
    ensures FdsWithin(p + q, from, to) == FdsWithin(p, from, to) + FdsWithin(q, from, to)
  {
    if p == [] {
      assert p + q == q;
    } else {
      assert (p + q)[1..] == p[1..] + q;
      FdsWithinAppend(p[1..], q, from, to);
    }
  }

  lemma {:induction false} NoneWithin(p: seq<Point>, from: nat, to: nat)
    requires forall x | x in p :: x.offset >= to
    ensures FdsWithin(p, from, to) == []
  {
    if p != [] {
      NoneWithin(p[1..], from, to);
    }
  }

  lemma {:induction false} PointsArrive(frames: seq<Delivery>, start: nat, from: nat, to: nat)
    ensures FdsWithin(Points(frames, start), from, to) == Arriving(frames, start, from, to)
    decreases |frames|
  {
    if frames != [] {
      var own := if frames[0].fd != NO_FD then [Point(start, frames[0].fd)] else [];
      var rest := Points(frames[1..], start + |frames[0].frame|);
      FdsWithinAppend(own, rest, from, to);
      PointsArrive(frames[1..], start + |frames[0].frame|, from, to);
    }
  }

  /** A read of emitted bytes brings what the frames themselves dictate. */
  lemma KernelDelivers(emitted: seq<Byte>, attached: seq<Point>, offered: seq<Delivery>, from: nat, to: nat)
    requires OnWire(emitted, attached, offered) && from <= to <= |emitted|
    ensures to <= |Stream(offered)| && emitted[from..to] == Stream(offered)[from..to]
    ensures FdsWithin(attached, from, to) == Arriving(offered, 0, from, to)
  {
    var ps := Points(offered, 0);
    assert ps == attached + ps[|attached|..];
    FdsWithinAppend(attached, ps[|attached|..], from, to);
    forall x | x in ps[|attached|..] ensures x.offset >= to {
      var i :| 0 <= i < |ps[|attached|..]| && ps[|attached|..][i] == x;
      assert ps[|attached| + i] == x;
    }
    NoneWithin(ps[|attached|..], from, to);
    PointsArrive(offered, 0, from, to);
  }

  /** Reading the link is reading the offered frames' own stream. */
  lemma {:induction false} AbsorbsTheFrames(emitted: seq<Byte>, attached: seq<Point>, offered: seq<Delivery>,
                                            chunks: seq<nat>, accepts: nat -> bool)
    requires OnWire(emitted, attached, offered) && Sum(chunks) <= |emitted|
    requires KernelRule(Cut(emitted, attached, chunks))
    ensures LegalReads(offered, chunks)
    ensures Absorb(Cut(emitted, attached, chunks), accepts) == Receive(offered, chunks, accepts)
    decreases |chunks|
  {
    hide Dispatch, Fill;
    if chunks != [] {
      var before, arrivals := chunks[..|chunks| - 1], Cut(emitted, attached, chunks);
      assert arrivals[..|arrivals| - 1] == Cut(emitted, attached, before);
      forall a | a in Cut(emitted, attached, before) ensures |a.fds| <= 1 {
        assert a in arrivals;
      }
      AbsorbsTheFrames(emitted, attached, offered, before, accepts);
      KernelDelivers(emitted, attached, offered, Sum(before), Sum(chunks));
      assert arrivals[|arrivals| - 1] in arrivals;
    }
  }

  /** Every pattern of partial writes, parking, flushing and reads, for whatever
    * frames a sender let through. The connection fails exactly when a header
    * that declares several descriptors has arrived; what has been handed on is
    * exactly the frames that arrived whole before it, in order, each with its
    * descriptor. Without such a header everything comes out. */
  lemma EndToEnd(emitted: seq<Byte>, attached: seq<Point>, offered: seq<Delivery>, chunks: seq<nat>,
                 accepts: nat -> bool)
    requires Checked(offered) && OnWire(emitted, attached, offered) && Sum(chunks) <= |emitted|
    requires KernelRule(Cut(emitted, attached, chunks)) && forall i | 0 <= i < |offered| :: accepts(i)
    ensures var rx := Absorb(Cut(emitted, attached, chunks), accepts);
            && (rx.failed <==> Poisoned(offered, Sum(chunks)))
            && rx.delivered == offered[..if rx.failed then Sane(offered) else Complete(offered, Sum(chunks))]
            && (Sum(chunks) == |Stream(offered)| ==>
                  (rx.delivered == offered && !rx.failed && rx.pending == [] <==> AtMostOneEach(offered)))
  {
    hide Dispatch, Fill, OnWire, KernelRule;
    CheckedAreFramed(offered);
    AbsorbsTheFrames(emitted, attached, offered, chunks, accepts);
    EveryReadPattern(offered, chunks, accepts);
    if Sum(chunks) == |Stream(offered)| {
      WholeStream(offered, Receive(offered, chunks, accepts));
    }
  }

  /** Every header declares a descriptor or none. */
  predicate AtMostOneEach(offered: seq<Delivery>)
  {
    forall d | d in offered :: !Overdeclares(d)
  }

  lemma CheckedAreFramed(offered: seq<Delivery>)
    requires Checked(offered)
    ensures AllFramed(offered)
  {
    forall d | d in offered ensures Framed(d) {
      CheckedIsDeclaredIff(d.frame, d.fd);
    }
  }

  /** Once the whole stream is read, any header that overdeclares has arrived. */
  lemma WholeStream(offered: seq<Delivery>, rx: Rx)
    requires AllFramed(offered) && Stands(rx, offered, |Stream(offered)|)
    ensures rx.failed <==> !AtMostOneEach(offered)
    ensures !rx.failed ==> rx.delivered == offered && rx.pending == []
  {
    AllComplete(offered);
    assert offered[..|offered|] == offered && offered[|offered|..] == [];
    var k := Sane(offered);
    if k < |offered| {
      StreamFrom(offered, k);
      assert Framed(offered[k]) && offered[k..][0] == offered[k];
    }
  }

  lemma {:induction false} AllComplete(frames: seq<Delivery>)
    ensures Complete(frames, |Stream(frames)|) == |frames|
  {
    if frames != [] {
      AllComplete(frames[1..]);
    }
  }

  /** The same for the object: whatever a sender has been through, its socket is
    * one the theorem speaks of. */
  lemma FromASender(s: Sender, chunks: seq<nat>, accepts: nat -> bool)
    requires s.Valid() && Sum(chunks) <= |s.emitted|
    requires KernelRule(Cut(s.emitted, s.attached, chunks)) && forall i | 0 <= i < |s.offered| :: accepts(i)
    ensures var rx := Absorb(Cut(s.emitted, s.attached, chunks), accepts);
            && (rx.failed <==> Poisoned(s.offered, Sum(chunks)))
            && rx.delivered == s.offered[..if rx.failed then Sane(s.offered) else Complete(s.offered, Sum(chunks))]
  {
    EndToEnd(s.emitted, s.attached, s.offered, chunks, accepts);
  }

  /** The frame `send` should have refused: a bare header, no descriptor attached,
    * two declared. It is let through, and the receiver fails on it. */
  lemma OverdeclaredGetsThrough(accepts: nat -> bool)
    ensures var frame := [1, 0, 0, 0, 8, 0, 5, 2];
            && WellFormed(frame, NO_FD) && !Declared(Delivery(frame, NO_FD))
            && Absorb([Arrival(frame, [], false)], accepts).failed
  {
    var frame := [1, 0, 0, 0, 8, 0, 5, 2];
    var a := Arrival(frame, [], false);
    assert [a][..0] == [] && Absorb([], accepts) == EMPTY;
    assert Fill(EMPTY, a).buffered == frame;
    assert Absorb([a], accepts) == Dispatch(Fill(EMPTY, a), accepts);
  }

  /** A frame from any encoder is one every receiver takes, and that a sender lets
    * through unless it is long and carries a descriptor. */
  lemma EncodedIsTaken(m: Message, objectId: U32, args: seq<Arg>, capacity: nat, fd: int)
    requires TypedAll(m.sig, args) && Encode(m, objectId, args, capacity).Ok? && (fd != NO_FD) == HasFd(m.sig)
    ensures var d := Delivery(Encode(m, objectId, args, capacity).value, fd); Declared(d) && !Overdeclares(d)
    ensures var bs := Encode(m, objectId, args, capacity).value;
            fd >= NO_FD ==> (WellFormed(bs, fd) <==> !(|bs| > 64 && HasFd(m.sig)))
  {
  }
}
