/** The receive half of the framed transport: bytes arrive in pieces the kernel
  * chose, descriptors arrive beside whole pieces rather than beside frames, and
  * the splitter must hand every frame on with its own descriptor. */
module WireReceive {
  import opened Bytes
  import opened Codec

  const MAX_FRAME := 65535
  const MAX_UNCLAIMED := 4
  const NO_FD := -1

  /** A descriptor waiting for its frame, tagged with the stream span of the
    * read that brought it. */
  datatype PendingFd = PendingFd(spanStart: nat, spanEnd: nat, fd: int)

  /** A frame handed to the protocol layer, and the descriptor that went with it. */
  datatype Delivery = Delivery(frame: seq<Byte>, fd: int)

  /** The receiver: what is buffered, the stream offset of its first byte, the
    * descriptors waiting, whether the connection is poisoned, and two logs. */
  datatype Rx = Rx(buffered: seq<Byte>, consumed: nat, pending: seq<PendingFd>, failed: bool,
                   delivered: seq<Delivery>, closed: seq<int>)

  const EMPTY := Rx([], 0, [], false, [], [])

  function PendingFds(pending: seq<PendingFd>): (fds: seq<int>)
    ensures |fds| == |pending|
  {
    seq(|pending|, i requires 0 <= i < |pending| => pending[i].fd)
  }

  /** `wire_fail`: poison the stream and close every waiting descriptor. */
  function Fail(rx: Rx): Rx
  {
    rx.(failed := true, pending := [], closed := rx.closed + PendingFds(rx.pending))
  }

  function Tag(fds: seq<int>, spanStart: nat, spanEnd: nat): (tagged: seq<PendingFd>)
    ensures |tagged| == |fds|
  {
    seq(|fds|, i requires 0 <= i < |fds| => PendingFd(spanStart, spanEnd, fds[i]))
  }

  /** Queue the descriptors of a read of `n` bytes. What does not fit the queue
    * is closed on the spot, and then everything is. */
  function Harvest(rx: Rx, n: nat, fds: seq<int>): (r: Rx)
    ensures r.buffered == rx.buffered
  {
    var spanStart := rx.consumed + |rx.buffered|;
    var room := MAX_UNCLAIMED - |rx.pending|;
    if |fds| > room then
      var kept := if room > 0 then fds[..room] else [];
      Fail(rx.(pending := rx.pending + Tag(kept, spanStart, spanStart + n), closed := rx.closed + fds[|kept|..]))
    else
      rx.(pending := rx.pending + Tag(fds, spanStart, spanStart + n))
  }

  /** One read: the bytes and descriptors the kernel returned, and whether it had
    * to drop descriptors it had no room for. */
  datatype Arrival = Arrival(bytes: seq<Byte>, fds: seq<int>, truncated: bool)

  /** `wire_fill` on a read that returned something. */
  function Fill(rx: Rx, a: Arrival): Rx
  {
    var harvested := Harvest(rx, |a.bytes|, a.fds);
    if harvested.failed then harvested
    else if a.truncated then Fail(harvested)
    else harvested.(buffered := rx.buffered + a.bytes)
  }

  /** `wire_take_fd`: the descriptor a frame starting at `frameStart` may claim. */
  predicate CanTake(pending: seq<PendingFd>, frameStart: nat)
  {
    pending != [] && pending[0].spanStart <= frameStart
  }

  /** `wire_has_unclaimed_fd`: a descriptor no frame up to `frameEnd` declared. */
  predicate HasUnclaimed(pending: seq<PendingFd>, frameEnd: nat)
  {
    pending != [] && pending[0].spanEnd <= frameEnd
  }

  /** A whole frame stands at the front of the buffer. */
  predicate FrameReady(rx: Rx)
  {
    |rx.buffered| >= HEADER_LEN && HEADER_LEN <= ParseHeader(rx.buffered).size <= |rx.buffered|
    && ParseHeader(rx.buffered).fdCount <= 1
  }

  /** Take the frame at the front, claim what it declares, and hand it on.
    * `accepts(i)` is the protocol layer's answer to the frame it is handed as
    * number `i`, whatever that answer depends on. */
  function TakeFrame(rx: Rx, accepts: nat -> bool): (r: Rx)
    requires FrameReady(rx)
    ensures !r.failed ==> |r.buffered| < |rx.buffered|
  {
    var h := ParseHeader(rx.buffered);
    var frameEnd := rx.consumed + h.size;
    if h.fdCount == 1 && !CanTake(rx.pending, rx.consumed) then Fail(rx)
    else
      var fd := if h.fdCount == 1 then rx.pending[0].fd else NO_FD;
      var rest := if h.fdCount == 1 then rx.pending[1..] else rx.pending;
      if HasUnclaimed(rest, frameEnd) then
        Fail(rx.(pending := rest, closed := rx.closed + (if h.fdCount == 1 then [fd] else [])))
      else
        var next := Rx(rx.buffered[h.size..], frameEnd, rest, false,
                       rx.delivered + [Delivery(rx.buffered[..h.size], fd)], rx.closed);
        if accepts(|rx.delivered|) then next else Fail(next)
  }

  /** `wire_dispatch`: hand on every complete frame. */
  function Dispatch(rx: Rx, accepts: nat -> bool): (r: Rx)
    decreases |rx.buffered|
  {
    if rx.failed || |rx.buffered| < HEADER_LEN then rx
    else
      var h := ParseHeader(rx.buffered);
      if h.size < HEADER_LEN || h.fdCount > 1 then Fail(rx)
      else if |rx.buffered| < h.size then rx
      else
        var next := TakeFrame(rx, accepts);
        if next.failed then next else Dispatch(next, accepts)
  }

  // ---- every peer, honest or not ---------------------------------------

  function HandedFds(delivered: seq<Delivery>): (fds: seq<int>)
  {
    if delivered == [] then []
    else
      var last := delivered[|delivered| - 1];
      HandedFds(delivered[..|delivered| - 1]) + (if last.fd != NO_FD then [last.fd] else [])
  }

  function Count(s: seq<int>, x: int): nat
  {
    if s == [] then 0 else (if s[0] == x then 1 else 0) + Count(s[1..], x)
  }

  /** In how many places the descriptor `x`, once installed in this process,
    * is accounted for: handed on with a frame, waiting, or closed here. */
  function Held(rx: Rx, x: int): nat
  {
    Count(HandedFds(rx.delivered), x) + Count(PendingFds(rx.pending), x) + Count(rx.closed, x)
  }

  /** What holds of the receiver after any bytes whatever. */
  ghost predicate Sound(rx: Rx)
  {
    && |rx.pending| <= MAX_UNCLAIMED
    && (rx.failed ==> rx.pending == [])
    && (forall i | 0 <= i < |rx.delivered| :: Declared(rx.delivered[i]))
    && (forall i | 0 <= i < |rx.pending| :: rx.pending[i].fd != NO_FD)
  }

  /** A frame is handed on whole, and with a descriptor exactly when its header
    * declares one. */
  ghost predicate Declared(d: Delivery)
  {
    && |d.frame| >= HEADER_LEN && ParseHeader(d.frame).size == |d.frame|
    && ParseHeader(d.frame).fdCount == (if d.fd != NO_FD then 1 else 0)
  }

  lemma {:induction false} CountAppend(s: seq<int>, t: seq<int>, x: int)
    ensures Count(s + t, x) == Count(s, x) + Count(t, x)
  {
    if s == [] {
      assert s + t == t;
    } else {
      assert (s + t)[1..] == s[1..] + t;
      CountAppend(s[1..], t, x);
    }
  }

  lemma FailKeeps(rx: Rx, x: int)
    ensures Held(Fail(rx), x) == Held(rx, x)
  {
    CountAppend(rx.closed, PendingFds(rx.pending), x);
  }

  lemma QueueKeeps(pending: seq<PendingFd>, fds: seq<int>, spanStart: nat, spanEnd: nat, x: int)
    ensures Count(PendingFds(pending + Tag(fds, spanStart, spanEnd)), x) == Count(PendingFds(pending), x) + Count(fds, x)
  {
    assert PendingFds(pending + Tag(fds, spanStart, spanEnd)) == PendingFds(pending) + fds;
    CountAppend(PendingFds(pending), fds, x);
  }

  lemma FillKeeps(rx: Rx, a: Arrival, x: int)
    requires |rx.pending| <= MAX_UNCLAIMED
    ensures Held(Fill(rx, a), x) == Held(rx, x) + Count(a.fds, x)
  {
    HarvestKeeps(rx, a.bytes, a.fds, x);
    FailKeeps(Harvest(rx, |a.bytes|, a.fds), x);
  }

  lemma OverflowKeeps(rx: Rx, kept: seq<int>, lost: seq<int>, spanStart: nat, spanEnd: nat, x: int)
    ensures Held(Fail(rx.(pending := rx.pending + Tag(kept, spanStart, spanEnd), closed := rx.closed + lost)), x)
         == Held(rx, x) + Count(kept, x) + Count(lost, x)
  {
    hide Count, HandedFds, PendingFds, Tag;
    QueueKeeps(rx.pending, kept, spanStart, spanEnd, x);
    CountAppend(rx.closed, lost, x);
    FailKeeps(rx.(pending := rx.pending + Tag(kept, spanStart, spanEnd), closed := rx.closed + lost), x);
  }

  lemma RoomKeeps(rx: Rx, fds: seq<int>, spanStart: nat, spanEnd: nat, x: int)
    ensures Held(rx.(pending := rx.pending + Tag(fds, spanStart, spanEnd)), x) == Held(rx, x) + Count(fds, x)
  {
    hide Count, HandedFds, PendingFds, Tag;
    QueueKeeps(rx.pending, fds, spanStart, spanEnd, x);
  }

  lemma HarvestKeeps(rx: Rx, bytes: seq<Byte>, fds: seq<int>, x: int)
    requires |rx.pending| <= MAX_UNCLAIMED
    ensures Held(Harvest(rx, |bytes|, fds), x) == Held(rx, x) + Count(fds, x)
  {
    hide Held, Count, Tag, Fail;
    var spanStart := rx.consumed + |rx.buffered|;
    var room := MAX_UNCLAIMED - |rx.pending|;
    if |fds| > room {
      var kept := if room > 0 then fds[..room] else [];
      OverflowKeeps(rx, kept, fds[|kept|..], spanStart, spanStart + |bytes|, x);
      assert fds == kept + fds[|kept|..];
      CountAppend(kept, fds[|kept|..], x);
    } else {
      RoomKeeps(rx, fds, spanStart, spanStart + |bytes|, x);
    }
  }

  lemma HandOnKeeps(delivered: seq<Delivery>, d: Delivery, x: int)
    ensures Count(HandedFds(delivered + [d]), x)
         == Count(HandedFds(delivered), x) + (if d.fd != NO_FD && d.fd == x then 1 else 0)
  {
    var log := delivered + [d];
    assert log[..|log| - 1] == delivered;
    CountAppend(HandedFds(delivered), if d.fd != NO_FD then [d.fd] else [], x);
  }

  lemma FrontFd(pending: seq<PendingFd>, x: int)
    requires pending != []
    ensures Count(PendingFds(pending), x) == (if pending[0].fd == x then 1 else 0) + Count(PendingFds(pending[1..]), x)
  {
    assert PendingFds(pending)[1..] == PendingFds(pending[1..]);
  }

  lemma TakeFrameKeeps(rx: Rx, accepts: nat -> bool, x: int)
    requires FrameReady(rx) && (rx.pending != [] ==> rx.pending[0].fd != NO_FD)
    ensures Held(TakeFrame(rx, accepts), x) == Held(rx, x)
  {
    hide ParseHeader, Count, HandedFds, PendingFds;
    var h := ParseHeader(rx.buffered);
    if h.fdCount == 1 && !CanTake(rx.pending, rx.consumed) {
      FailKeeps(rx, x);
    } else {
      var fd := if h.fdCount == 1 then rx.pending[0].fd else NO_FD;
      var rest := if h.fdCount == 1 then rx.pending[1..] else rx.pending;
      var own := if h.fdCount == 1 then [fd] else [];
      if h.fdCount == 1 {
        FrontFd(rx.pending, x);
      }
      CountOwn(own, x);
      CountAppend(rx.closed, own, x);
      if HasUnclaimed(rest, rx.consumed + h.size) {
        FailKeeps(rx.(pending := rest, closed := rx.closed + own), x);
      } else {
        var d := Delivery(rx.buffered[..h.size], fd);
        HandOnKeeps(rx.delivered, d, x);
        FailKeeps(Rx(rx.buffered[h.size..], rx.consumed + h.size, rest, false, rx.delivered + [d], rx.closed), x);
      }
    }
  }

  lemma CountOwn(own: seq<int>, x: int)
    requires |own| <= 1
    ensures Count(own, x) == if |own| == 1 && own[0] == x then 1 else 0
  {
  }

  lemma FillSound(rx: Rx, a: Arrival)
    requires Sound(rx) && !rx.failed && NO_FD !in a.fds
    ensures Sound(Fill(rx, a))
  {
  }

  lemma TakeFrameSound(rx: Rx, accepts: nat -> bool)
    requires Sound(rx) && !rx.failed && FrameReady(rx)
    ensures Sound(TakeFrame(rx, accepts))
  {
  }

  /** No byte sequence makes the receiver lose a descriptor, hand one on twice,
    * or hand one to a frame that declares none; and the reassembly buffer is
    * never full when the next read begins. */
  lemma {:induction false} DispatchSound(rx: Rx, accepts: nat -> bool)
    requires Sound(rx)
    ensures Sound(Dispatch(rx, accepts))
    ensures forall x :: Held(Dispatch(rx, accepts), x) == Held(rx, x)
    ensures !Dispatch(rx, accepts).failed ==> |Dispatch(rx, accepts).buffered| < MAX_FRAME
    decreases |rx.buffered|
  {
    hide Held, TakeFrame;
    if !rx.failed && |rx.buffered| >= HEADER_LEN {
      if FrameReady(rx) {
        TakeFrameSound(rx, accepts);
        forall x ensures Held(TakeFrame(rx, accepts), x) == Held(rx, x) {
          TakeFrameKeeps(rx, accepts, x);
        }
        if !TakeFrame(rx, accepts).failed {
          DispatchSound(TakeFrame(rx, accepts), accepts);
        }
      } else {
        forall x ensures Held(Fail(rx), x) == Held(rx, x) {
          FailKeeps(rx, x);
        }
      }
    }
  }

  // ---- a peer that frames its messages ------------------------------------

  /** The bytes a peer puts on the wire for `frames`. */
  function Stream(frames: seq<Delivery>): (bs: seq<Byte>)
  {
    if frames == [] then [] else frames[0].frame + Stream(frames[1..])
  }

  /** Where frame number `k` starts in the stream. */
  function Offset(frames: seq<Delivery>, k: nat): (n: nat)
    requires k <= |frames|
  {
    if k == 0 then 0 else |frames[0].frame| + Offset(frames[1..], k - 1)
  }

  /** How many of `frames` lie whole within the first `n` bytes. */
  function Complete(frames: seq<Delivery>, n: nat): (k: nat)
    ensures k <= |frames|
  {
    if frames == [] || n < |frames[0].frame| then 0 else 1 + Complete(frames[1..], n - |frames[0].frame|)
  }

  /** The descriptors a read of stream bytes `[from, to)` delivers, when every
    * fd-bearing frame's descriptor is attached to its first byte and the first
    * of `frames` starts at `start`. */
  function Arriving(frames: seq<Delivery>, start: nat, from: nat, to: nat): (fds: seq<int>)
  {
    if frames == [] then []
    else
      (if frames[0].fd != NO_FD && from <= start < to then [frames[0].fd] else [])
      + Arriving(frames[1..], start + |frames[0].frame|, from, to)
  }

  /** A frame of its declared size, with a descriptor exactly when it declares
    * one; it may still declare several and carry none. */
  ghost predicate Framed(d: Delivery)
  {
    && |d.frame| >= HEADER_LEN && ParseHeader(d.frame).size == |d.frame|
    && (ParseHeader(d.frame).fdCount == 1) == (d.fd != NO_FD)
  }

  ghost predicate AllFramed(frames: seq<Delivery>)
  {
    forall d | d in frames :: Framed(d)
  }

  /** The header declares more descriptors than any message may carry. */
  predicate Overdeclares(d: Delivery)
  {
    |d.frame| >= HEADER_LEN && ParseHeader(d.frame).fdCount > 1
  }

  /** How many frames come before the first that overdeclares. */
  function Sane(frames: seq<Delivery>): (k: nat)
    ensures k <= |frames|
    ensures k == |frames| <==> forall d | d in frames :: !Overdeclares(d)
  {
    if frames == [] || Overdeclares(frames[0]) then 0 else 1 + Sane(frames[1..])
  }

  /** A header that overdeclares lies whole within the first `n` bytes. */
  predicate Poisoned(frames: seq<Delivery>, n: nat)
  {
    Sane(frames) < |frames| && n >= Offset(frames, Sane(frames)) + HEADER_LEN
  }

  /** The queue holds exactly the descriptors of the frames already begun, in
    * order, each from a read that covered its frame's first byte. */
  ghost predicate Matches(pending: seq<PendingFd>, frames: seq<Delivery>, start: nat, received: nat)
  {
    if frames == [] || start >= received then pending == []
    else if frames[0].fd == NO_FD then Matches(pending, frames[1..], start + |frames[0].frame|, received)
    else
      && pending != [] && pending[0].fd == frames[0].fd
      && pending[0].spanStart <= start < pending[0].spanEnd
      && Matches(pending[1..], frames[1..], start + |frames[0].frame|, received)
  }

  lemma {:induction false} FrontStartsLater(pending: seq<PendingFd>, frames: seq<Delivery>, start: nat, received: nat)
    requires Matches(pending, frames, start, received) && pending != []
    ensures pending[0].spanEnd > start
  {
    if frames[0].fd == NO_FD {
      FrontStartsLater(pending, frames[1..], start + |frames[0].frame|, received);
    }
  }

  lemma {:induction false} MatchesFill(pending: seq<PendingFd>, frames: seq<Delivery>, start: nat, received: nat, to: nat)
    requires Matches(pending, frames, start, received) && received <= to
    ensures Matches(pending + Tag(Arriving(frames, start, received, to), received, to), frames, start, to)
    decreases |frames|
  {
    if frames != [] {
      var d, next := frames[0], start + |frames[0].frame|;
      var more := Arriving(frames[1..], next, received, to);
      if start >= received {
        assert Matches([], frames[1..], next, received);
        MatchesFill([], frames[1..], next, received, to);
        if start >= to {
          NothingArrives(frames, start, received, to);
        } else if d.fd == NO_FD {
          assert Arriving(frames, start, received, to) == more;
        } else {
          assert (pending + Tag([d.fd] + more, received, to))[1..] == [] + Tag(more, received, to);
        }
      } else if d.fd == NO_FD {
        assert Arriving(frames, start, received, to) == more;
        MatchesFill(pending, frames[1..], next, received, to);
      } else {
        assert Arriving(frames, start, received, to) == more;
        MatchesFill(pending[1..], frames[1..], next, received, to);
        assert (pending + Tag(more, received, to))[1..] == pending[1..] + Tag(more, received, to);
      }
    }
  }

  lemma {:induction false} NothingArrives(frames: seq<Delivery>, start: nat, from: nat, to: nat)
    requires start >= to
    ensures Arriving(frames, start, from, to) == []
    decreases |frames|
  {
    if frames != [] {
      NothingArrives(frames[1..], start + |frames[0].frame|, from, to);
    }
  }

  lemma {:induction false} StreamFrom(frames: seq<Delivery>, k: nat)
    requires k <= |frames|
    ensures Offset(frames, k) <= |Stream(frames)| && Stream(frames)[Offset(frames, k)..] == Stream(frames[k..])
  {
    if k == 0 {
      assert frames[0..] == frames;
    } else {
      StreamFrom(frames[1..], k - 1);
      assert frames[1..][k - 1..] == frames[k..];
    }
  }

  /** Bytes cut from a framed stream show the first frame's own header. */
  lemma HeaderShows(frames: seq<Delivery>, buffered: seq<Byte>)
    requires AllFramed(frames) && buffered <= Stream(frames) && |buffered| >= HEADER_LEN
    ensures frames != [] && |frames[0].frame| >= HEADER_LEN
    ensures ParseHeader(buffered) == ParseHeader(frames[0].frame)
  {
    var s := Stream(frames);
    assert frames != [];
    assert Framed(frames[0]);
    assert forall i | 0 <= i < HEADER_LEN :: buffered[i] == s[i] == frames[0].frame[i];
  }

  /** What the receiver looks like when it has dispatched `k` of `frames`. */
  ghost predicate Advanced(r: Rx, rx: Rx, frames: seq<Delivery>, k: nat)
    requires k <= |frames|
  {
    var done := Offset(frames, k);
    && !r.failed && r.delivered == rx.delivered + frames[..k]
    && done <= |rx.buffered| && r.buffered == rx.buffered[done..] && r.consumed == rx.consumed + done
    && Matches(r.pending, frames[k..], r.consumed, rx.consumed + |rx.buffered|)
  }

  lemma ClaimOwn(pending: seq<PendingFd>, frames: seq<Delivery>, start: nat, received: nat)
    requires frames != [] && start < received && Matches(pending, frames, start, received)
    ensures frames[0].fd != NO_FD ==> CanTake(pending, start) && pending[0].fd == frames[0].fd
    ensures var rest := if frames[0].fd != NO_FD then pending[1..] else pending;
            var end := start + |frames[0].frame|;
            Matches(rest, frames[1..], end, received) && !HasUnclaimed(rest, end)
  {
    var rest := if frames[0].fd != NO_FD then pending[1..] else pending;
    if rest != [] {
      FrontStartsLater(rest, frames[1..], start + |frames[0].frame|, received);
    }
  }

  lemma TakeFramed(rx: Rx, frames: seq<Delivery>, accepts: nat -> bool)
    requires !rx.failed && AllFramed(frames) && frames != [] && rx.buffered <= Stream(frames)
    requires Matches(rx.pending, frames, rx.consumed, rx.consumed + |rx.buffered|)
    requires |rx.buffered| >= |frames[0].frame| && !Overdeclares(frames[0]) && accepts(|rx.delivered|)
    ensures FrameReady(rx)
    ensures var n := |frames[0].frame|; var r := TakeFrame(rx, accepts);
            && !r.failed && r.delivered == rx.delivered + [frames[0]]
            && r.buffered == rx.buffered[n..] && r.buffered <= Stream(frames[1..]) && r.consumed == rx.consumed + n
            && Matches(r.pending, frames[1..], r.consumed, rx.consumed + |rx.buffered|)
  {
    hide ParseHeader, Matches, HasUnclaimed, Stream, CanTake;
    var d := frames[0];
    FrontShows(rx.buffered, frames);
    ClaimOwn(rx.pending, frames, rx.consumed, rx.consumed + |rx.buffered|);
  }

  /** The front of the buffer is the first frame, header and all. */
  lemma FrontShows(buffered: seq<Byte>, frames: seq<Delivery>)
    requires AllFramed(frames) && frames != [] && buffered <= Stream(frames) && |buffered| >= |frames[0].frame|
    ensures |frames[0].frame| >= HEADER_LEN && ParseHeader(buffered).size == |frames[0].frame|
    ensures ParseHeader(buffered).fdCount == ParseHeader(frames[0].frame).fdCount
    ensures (ParseHeader(buffered).fdCount == 1) == (frames[0].fd != NO_FD)
    ensures buffered[..|frames[0].frame|] == frames[0].frame && buffered[|frames[0].frame|..] <= Stream(frames[1..])
  {
    hide ParseHeader;
    assert Framed(frames[0]);
    HeaderShows(frames, buffered);
    CutStream(buffered, frames[0].frame, Stream(frames[1..]));
  }

  lemma CutStream(buffered: seq<Byte>, head: seq<Byte>, tail: seq<Byte>)
    requires buffered <= head + tail && |buffered| >= |head|
    ensures buffered[..|head|] == head && buffered[|head|..] <= tail
  {
  }

  lemma PoisonStep(frames: seq<Delivery>, n: nat)
    requires frames != [] && !Overdeclares(frames[0]) && n >= |frames[0].frame|
    ensures Sane(frames) == 1 + Sane(frames[1..])
    ensures Poisoned(frames, n) <==> Poisoned(frames[1..], n - |frames[0].frame|)
  {
    hide Sane, Overdeclares, Offset;
    SaneStep(frames);
    OffsetStep(frames, Sane(frames[1..]));
  }

  lemma SaneStep(frames: seq<Delivery>)
    requires frames != [] && !Overdeclares(frames[0])
    ensures Sane(frames) == 1 + Sane(frames[1..])
  {
    hide Overdeclares;
  }

  /** One dispatch hands on exactly the complete frames, up to the first header
    * that overdeclares, which poisons the connection as soon as it is whole. */
  ghost predicate Dispatched(r: Rx, rx: Rx, frames: seq<Delivery>)
  {
    if Poisoned(frames, |rx.buffered|) then r.failed && r.delivered == rx.delivered + frames[..Sane(frames)]
    else Advanced(r, rx, frames, Complete(frames, |rx.buffered|))
  }

  lemma {:induction false} DispatchFramed(rx: Rx, frames: seq<Delivery>, accepts: nat -> bool)
    requires !rx.failed && AllFramed(frames) && rx.buffered <= Stream(frames)
    requires Matches(rx.pending, frames, rx.consumed, rx.consumed + |rx.buffered|)
    requires forall i | |rx.delivered| <= i < |rx.delivered| + |frames| :: accepts(i)
    ensures Dispatched(Dispatch(rx, accepts), rx, frames)
    decreases |frames|
  {
    hide TakeFrame;
    if |rx.buffered| >= HEADER_LEN {
      HeaderShows(frames, rx.buffered);
    }
    if frames != [] && |rx.buffered| >= |frames[0].frame| && !Overdeclares(frames[0]) {
      assert Framed(frames[0]);
      TakeFramed(rx, frames, accepts);
      var next := TakeFrame(rx, accepts);
      DispatchFramed(next, frames[1..], accepts);
      DispatchedStep(Dispatch(rx, accepts), next, rx, frames);
    } else {
      DispatchStops(rx, frames, accepts);
    }
  }

  lemma DispatchedStep(r: Rx, next: Rx, rx: Rx, frames: seq<Delivery>)
    requires frames != [] && !Overdeclares(frames[0]) && Dispatched(r, next, frames[1..])
    requires var n := |frames[0].frame|;
             && n <= |rx.buffered| && next.delivered == rx.delivered + [frames[0]]
             && next.buffered == rx.buffered[n..] && next.consumed == rx.consumed + n
    ensures Dispatched(r, rx, frames)
  {
    hide Advanced, Poisoned, Sane, Complete, Overdeclares;
    PoisonStep(frames, |rx.buffered|);
    CompleteStep(frames, |rx.buffered|);
    if Poisoned(frames, |rx.buffered|) {
      PrefixStep(frames, Sane(frames[1..]));
    } else {
      AdvancedStep(r, next, rx, frames, Complete(frames[1..], |next.buffered|));
    }
  }

  lemma PrefixStep(frames: seq<Delivery>, k: nat)
    requires frames != [] && k <= |frames[1..]|
    ensures [frames[0]] + frames[1..][..k] == frames[..k + 1]
  {
  }

  /** The front frame is still arriving, or overdeclares. */
  lemma DispatchStops(rx: Rx, frames: seq<Delivery>, accepts: nat -> bool)
    requires !rx.failed && AllFramed(frames) && rx.buffered <= Stream(frames)
    requires Matches(rx.pending, frames, rx.consumed, rx.consumed + |rx.buffered|)
    requires frames != [] && |rx.buffered| >= |frames[0].frame| ==> Overdeclares(frames[0])
    ensures Dispatched(Dispatch(rx, accepts), rx, frames)
  {
    hide ParseHeader, Matches, TakeFrame;
    if |rx.buffered| >= HEADER_LEN {
      HeaderShows(frames, rx.buffered);
    }
    if frames != [] {
      assert Framed(frames[0]);
    }
    assert frames[..0] == [] && frames[0..] == frames;
    assert rx.buffered[0..] == rx.buffered && rx.delivered + [] == rx.delivered;
  }

  lemma AdvancedStep(r: Rx, next: Rx, rx: Rx, frames: seq<Delivery>, k: nat)
    requires frames != [] && k <= |frames[1..]| && Advanced(r, next, frames[1..], k)
    requires var n := |frames[0].frame|;
             && n <= |rx.buffered| && next.delivered == rx.delivered + [frames[0]]
             && next.buffered == rx.buffered[n..] && next.consumed == rx.consumed + n
    ensures Advanced(r, rx, frames, k + 1)
  {
  }

  // ---- a peer that does not match descriptors to frames ------------------------

  /** An idle receiver: everything that came has been handed on. */
  predicate Idle(rx: Rx)
  {
    !rx.failed && rx.buffered == [] && rx.pending == []
  }

  /** A whole frame that declares no descriptor, with one riding on it: the frame is
    * not handed on, and the descriptor is closed. */
  lemma UndeclaredIsRefused(rx: Rx, frame: seq<Byte>, fd: int, accepts: nat -> bool)
    requires Idle(rx) && |frame| >= HEADER_LEN && ParseHeader(frame).size == |frame| && ParseHeader(frame).fdCount == 0
    ensures var r := Dispatch(Fill(rx, Arrival(frame, [fd], false)), accepts);
            r.failed && r.delivered == rx.delivered && r.closed == rx.closed + [fd]
  {
    var filled := Fill(rx, Arrival(frame, [fd], false));
    assert filled.buffered == frame && filled.pending == [PendingFd(rx.consumed, rx.consumed + |frame|, fd)];
    assert PendingFds(filled.pending) == [fd];
  }

  /** A whole frame that declares a descriptor, with none: it is not handed on. */
  lemma MissingIsRefused(rx: Rx, frame: seq<Byte>, accepts: nat -> bool)
    requires Idle(rx) && |frame| >= HEADER_LEN && ParseHeader(frame).size == |frame| && ParseHeader(frame).fdCount == 1
    ensures var r := Dispatch(Fill(rx, Arrival(frame, [], false)), accepts);
            r.failed && r.delivered == rx.delivered
  {
    var filled := Fill(rx, Arrival(frame, [], false));
    assert filled.buffered == frame && filled.pending == [];
  }

  /** A descriptor that comes only with a later part of its frame was not attached to
    * the frame's first byte: it is not taken, and closed. */
  lemma LateIsRefused(rx: Rx, frame: seq<Byte>, k: nat, fd: int, accepts: nat -> bool)
    requires Idle(rx) && |frame| >= HEADER_LEN && ParseHeader(frame).size == |frame| && ParseHeader(frame).fdCount == 1
    requires 0 < k < |frame|
    ensures var half := Dispatch(Fill(rx, Arrival(frame[..k], [], false)), accepts);
            var r := Dispatch(Fill(half, Arrival(frame[k..], [fd], false)), accepts);
            !half.failed && r.failed && r.delivered == rx.delivered && r.closed == rx.closed + [fd]
  {
    hide Dispatch, Fill, ParseHeader;
    HalfWaits(rx, frame, k, accepts);
    SecondHalf(rx, frame, k, fd);
    var filled := Fill(rx.(buffered := frame[..k]), Arrival(frame[k..], [fd], false));
    CannotClaim(filled, accepts);
    assert PendingFds(filled.pending) == [fd];
  }

  lemma SecondHalf(rx: Rx, frame: seq<Byte>, k: nat, fd: int)
    requires Idle(rx) && k <= |frame|
    ensures Fill(rx.(buffered := frame[..k]), Arrival(frame[k..], [fd], false))
         == rx.(buffered := frame, pending := [PendingFd(rx.consumed + k, rx.consumed + |frame|, fd)])
  {
    assert frame[..k] + frame[k..] == frame;
  }

  /** A frame that declares a descriptor it cannot claim fails the connection. */
  lemma CannotClaim(rx: Rx, accepts: nat -> bool)
    requires !rx.failed && |rx.buffered| >= HEADER_LEN && ParseHeader(rx.buffered).size == |rx.buffered|
    requires ParseHeader(rx.buffered).fdCount == 1 && !CanTake(rx.pending, rx.consumed)
    ensures Dispatch(rx, accepts) == Fail(rx)
  {
    hide ParseHeader;
  }

  /** A frame the protocol layer rejects is the last one handed on. */
  lemma RejectedIsLast(rx: Rx, frame: seq<Byte>, accepts: nat -> bool)
    requires Idle(rx) && |frame| >= HEADER_LEN && ParseHeader(frame).size == |frame| && ParseHeader(frame).fdCount == 0
    ensures var r := Dispatch(Fill(rx, Arrival(frame, [], false)), accepts);
            r.delivered == rx.delivered + [Delivery(frame, NO_FD)] && (r.failed <==> !accepts(|rx.delivered|))
  {
    hide ParseHeader, Fill;
    var filled := rx.(buffered := frame);
    assert Fill(rx, Arrival(frame, [], false)) == filled by {
      FillIdle(rx, frame);
    }
    assert frame[..|frame|] == frame && frame[|frame|..] == [];
    var next := TakeFrame(filled, accepts);
    assert next.buffered == [] && next.delivered == rx.delivered + [Delivery(frame, NO_FD)];
  }

  lemma FillIdle(rx: Rx, bytes: seq<Byte>)
    requires Idle(rx)
    ensures Fill(rx, Arrival(bytes, [], false)) == rx.(buffered := bytes)
  {
  }

  /** A read fails the connection exactly when it brings more descriptors than the
    * queue has room for, or the kernel had to drop some. */
  lemma FillFailsIff(rx: Rx, a: Arrival)
    requires !rx.failed && |rx.pending| <= MAX_UNCLAIMED
    ensures Fill(rx, a).failed <==> |rx.pending| + |a.fds| > MAX_UNCLAIMED || a.truncated
    ensures !Fill(rx, a).failed ==> Fill(rx, a).buffered == rx.buffered + a.bytes && Fill(rx, a).consumed == rx.consumed
  {
  }

  lemma HalfWaits(rx: Rx, frame: seq<Byte>, k: nat, accepts: nat -> bool)
    requires Idle(rx) && |frame| >= HEADER_LEN && ParseHeader(frame).size == |frame| && ParseHeader(frame).fdCount <= 1
    requires k < |frame|
    ensures Dispatch(Fill(rx, Arrival(frame[..k], [], false)), accepts) == rx.(buffered := frame[..k])
  {
    var filled := Fill(rx, Arrival(frame[..k], [], false));
    assert filled == rx.(buffered := frame[..k]);
    if k >= HEADER_LEN {
      assert forall i | 0 <= i < HEADER_LEN :: frame[..k][i] == frame[i];
      assert ParseHeader(frame[..k]) == ParseHeader(frame);
    }
  }

  // ---- whole connections ---------------------------------------------------

  function Sum(chunks: seq<nat>): nat
  {
    if chunks == [] then 0 else Sum(chunks[..|chunks| - 1]) + chunks[|chunks| - 1]
  }

  /** The reads stay inside the stream, and each brings few enough descriptors:
    * the kernel never joins two batches in one read, so one is its own bound. */
  ghost predicate LegalReads(frames: seq<Delivery>, chunks: seq<nat>)
  {
    chunks != [] ==>
      var before := chunks[..|chunks| - 1];
      && LegalReads(frames, before)
      && Sum(chunks) <= |Stream(frames)|
      && |Arriving(frames, 0, Sum(before), Sum(chunks))| <= MAX_UNCLAIMED - 1
  }

  /** The receiver after reads of the given sizes, each followed by a dispatch. */
  ghost function Receive(frames: seq<Delivery>, chunks: seq<nat>, accepts: nat -> bool): Rx
    requires LegalReads(frames, chunks)
  {
    if chunks == [] then EMPTY
    else
      var before := chunks[..|chunks| - 1];
      var rx := Receive(frames, before, accepts);
      if rx.failed then rx else Dispatch(Fill(rx, ReadOf(frames, Sum(before), Sum(chunks))), accepts)
  }

  /** What a read of stream bytes `[from, to)` returns. */
  function ReadOf(frames: seq<Delivery>, from: nat, to: nat): Arrival
    requires from <= to <= |Stream(frames)|
  {
    Arrival(Stream(frames)[from..to], Arriving(frames, 0, from, to), false)
  }

  /** The receiver stands exactly where `received` bytes of the stream put it. */
  ghost predicate InStep(rx: Rx, frames: seq<Delivery>, received: nat)
    requires received <= |Stream(frames)|
  {
    var k := Complete(frames, received);
    && !rx.failed && rx.delivered == frames[..k] && rx.consumed == Offset(frames, k) <= received
    && rx.buffered == Stream(frames)[rx.consumed..received]
    && Matches(rx.pending, frames[k..], rx.consumed, received)
  }

  lemma {:induction false} CompleteFits(frames: seq<Delivery>, n: nat)
    ensures var k := Complete(frames, n);
            Offset(frames, k) <= n && (k < |frames| ==> n < Offset(frames, k) + |frames[k].frame|)
  {
    if frames != [] && n >= |frames[0].frame| {
      CompleteFits(frames[1..], n - |frames[0].frame|);
    }
  }

  lemma CompleteStep(frames: seq<Delivery>, n: nat)
    ensures frames != [] && n >= |frames[0].frame| ==>
              Complete(frames, n) == 1 + Complete(frames[1..], n - |frames[0].frame|)
    ensures frames == [] || n < |frames[0].frame| ==> Complete(frames, n) == 0
  {
  }

  lemma OffsetStep(frames: seq<Delivery>, k: nat)
    requires frames != [] && k <= |frames[1..]|
    ensures Offset(frames, k + 1) == |frames[0].frame| + Offset(frames[1..], k)
  {
  }

  lemma OffsetZero(frames: seq<Delivery>)
    ensures Offset(frames, 0) == 0
  {
  }

  lemma {:induction false} CompleteMore(frames: seq<Delivery>, n: nat, more: nat)
    requires n <= more
    ensures var k := Complete(frames, n);
            && Offset(frames, k) <= n
            && Complete(frames, more) == k + Complete(frames[k..], more - Offset(frames, k))
  {
    hide Complete, Offset;
    CompleteStep(frames, n);
    if frames != [] && n >= |frames[0].frame| {
      var m := |frames[0].frame|;
      CompleteMore(frames[1..], n - m, more - m);
      var k := Complete(frames[1..], n - m);
      CompleteStep(frames, more);
      OffsetStep(frames, k);
      assert frames[1..][k..] == frames[k + 1..];
    } else {
      OffsetZero(frames);
      assert frames[0..] == frames;
    }
  }

  lemma {:induction false} OffsetAdds(frames: seq<Delivery>, k: nat, j: nat)
    requires k <= |frames| && j <= |frames[k..]|
    ensures Offset(frames, k + j) == Offset(frames, k) + Offset(frames[k..], j)
  {
    if k == 0 {
      assert frames[0..] == frames;
    } else {
      assert frames[1..][k - 1..] == frames[k..];
      OffsetAdds(frames[1..], k - 1, j);
    }
  }

  lemma {:induction false} ArrivingSkips(frames: seq<Delivery>, k: nat, start: nat, from: nat, to: nat)
    requires k <= |frames| && start + Offset(frames, k) <= from
    requires forall i | 0 <= i < k :: |frames[i].frame| > 0
    ensures Arriving(frames, start, from, to) == Arriving(frames[k..], start + Offset(frames, k), from, to)
    decreases k
  {
    if k == 0 {
      assert frames[0..] == frames;
    } else {
      assert frames[1..][k - 1..] == frames[k..];
      ArrivingSkips(frames[1..], k - 1, start + |frames[0].frame|, from, to);
    }
  }

  /** Between dispatches at most one descriptor waits: that of the frame still
    * arriving. */
  lemma OneWaits(rx: Rx, frames: seq<Delivery>, received: nat)
    requires received <= |Stream(frames)| && InStep(rx, frames, received)
    ensures |rx.pending| <= 1
  {
    CompleteFits(frames, received);
    var k := Complete(frames, received);
    if k < |frames| {
      var rest := frames[k..];
      assert rest[0] == frames[k];
      assert Matches(rx.pending, rest, rx.consumed, received);
      if rx.pending != [] {
        var later := if rest[0].fd != NO_FD then rx.pending[1..] else rx.pending;
        assert Matches(later, rest[1..], rx.consumed + |rest[0].frame|, received);
      }
    }
  }

  /** What a read brings fits the queue and extends the buffer. */
  lemma FillInStep(rx: Rx, frames: seq<Delivery>, received: nat, to: nat)
    requires AllFramed(frames) && received <= to <= |Stream(frames)| && InStep(rx, frames, received)
    requires |Arriving(frames, 0, received, to)| <= MAX_UNCLAIMED - 1
    ensures var k := Complete(frames, received);
            var filled := Fill(rx, ReadOf(frames, received, to));
            && !filled.failed && filled.delivered == rx.delivered && filled.consumed == rx.consumed
            && |filled.buffered| == to - rx.consumed && filled.buffered <= Stream(frames[k..])
            && Matches(filled.pending, frames[k..], rx.consumed, to)
  {
    hide Matches, Complete, Tag, Arriving, Stream, Offset;
    var s, k := Stream(frames), Complete(frames, received);
    OneWaits(rx, frames, received);
    forall i | 0 <= i < k ensures |frames[i].frame| > 0 {
      assert frames[i] in frames;
    }
    ArrivingSkips(frames, k, 0, received, to);
    MatchesFill(rx.pending, frames[k..], rx.consumed, received, to);
    StreamFrom(frames, k);
    SlicesJoin(s, rx.consumed, received, to);
  }

  lemma SlicesJoin(s: seq<Byte>, a: nat, b: nat, c: nat)
    requires a <= b <= c <= |s|
    ensures s[a..b] + s[b..c] == s[a..c] && s[a..c] <= s[a..]
  {
    assert s[a..c] == s[a..][..c - a];
  }

  /** Where the receiver stands after `received` bytes of a framed stream. */
  ghost predicate Stands(rx: Rx, frames: seq<Delivery>, received: nat)
    requires received <= |Stream(frames)|
  {
    if Poisoned(frames, received) then rx.failed && rx.delivered == frames[..Sane(frames)]
    else InStep(rx, frames, received)
  }

  /** Skipping sane frames skips no poison. */
  lemma {:induction false} PoisonLater(frames: seq<Delivery>, k: nat, n: nat)
    requires k <= Sane(frames) && Offset(frames, k) <= n
    ensures Sane(frames) == k + Sane(frames[k..])
    ensures Poisoned(frames, n) <==> Poisoned(frames[k..], n - Offset(frames, k))
    decreases k
  {
    OffsetZero(frames);
    hide Poisoned, Offset, Overdeclares;
    if k == 0 {
      assert frames[0..] == frames;
    } else {
      assert frames[1..][k - 1..] == frames[k..];
      OffsetStep(frames, k - 1);
      PoisonStep(frames, n);
      PoisonLater(frames[1..], k - 1, n - |frames[0].frame|);
    }
  }

  /** Short of the poison, every complete frame is sane. */
  lemma {:induction false} CompleteAreSane(frames: seq<Delivery>, n: nat)
    requires AllFramed(frames) && !Poisoned(frames, n)
    ensures Complete(frames, n) <= Sane(frames)
  {
    if frames != [] && n >= |frames[0].frame| {
      assert Framed(frames[0]);
      CompleteAreSane(frames[1..], n - |frames[0].frame|);
    }
  }

  lemma ReadStands(rx: Rx, frames: seq<Delivery>, received: nat, to: nat, accepts: nat -> bool)
    requires AllFramed(frames) && (forall i | 0 <= i < |frames| :: accepts(i))
    requires received <= to <= |Stream(frames)| && !Poisoned(frames, received) && InStep(rx, frames, received)
    requires |Arriving(frames, 0, received, to)| <= MAX_UNCLAIMED - 1
    ensures Stands(Dispatch(Fill(rx, ReadOf(frames, received, to)), accepts), frames, to)
  {
    hide Matches, Complete, Arriving, Dispatch, Fill, Stream, Advanced, Poisoned, Sane, Offset;
    var k := Complete(frames, received);
    var filled := Fill(rx, ReadOf(frames, received, to));
    FillInStep(rx, frames, received, to);
    assert forall d | d in frames[k..] :: d in frames;
    DispatchFramed(filled, frames[k..], accepts);
    CompleteAreSane(frames, received);
    PoisonLater(frames, k, to);
    var r := Dispatch(filled, accepts);
    if Poisoned(frames, to) {
      assert frames[..k] + frames[k..][..Sane(frames[k..])] == frames[..Sane(frames)];
    } else {
      CompleteMore(frames, received, to);
      AdvancedInStep(r, filled, frames, k, Complete(frames[k..], to - rx.consumed), to);
    }
  }

  lemma AdvancedInStep(r: Rx, filled: Rx, frames: seq<Delivery>, k: nat, j: nat, to: nat)
    requires k <= |frames| && j <= |frames[k..]| && to <= |Stream(frames)| && k + j == Complete(frames, to)
    requires filled.delivered == frames[..k] && filled.consumed == Offset(frames, k) <= to
    requires |filled.buffered| == to - filled.consumed && filled.buffered <= Stream(frames[k..])
    requires Advanced(r, filled, frames[k..], j)
    ensures InStep(r, frames, to)
  {
    hide Matches, Complete, Stream;
    OffsetAdds(frames, k, j);
    StreamFrom(frames, k);
    assert filled.buffered == Stream(frames)[filled.consumed..to];
    assert frames[..k] + frames[k..][..j] == frames[..k + j];
    assert frames[k..][j..] == frames[k + j..];
  }

  /** However the kernel cuts a framed stream into reads, what has been handed on
    * is exactly the frames received whole, in order, each with its own
    * descriptor, up to the first header that overdeclares; and the connection
    * fails exactly when that header has arrived. */
  lemma {:induction false} EveryReadPattern(frames: seq<Delivery>, chunks: seq<nat>, accepts: nat -> bool)
    requires AllFramed(frames) && LegalReads(frames, chunks) && forall i | 0 <= i < |frames| :: accepts(i)
    ensures Sum(chunks) <= |Stream(frames)| && Stands(Receive(frames, chunks, accepts), frames, Sum(chunks))
    ensures var rx := Receive(frames, chunks, accepts);
            && (rx.failed <==> Poisoned(frames, Sum(chunks)))
            && rx.delivered == frames[..if rx.failed then Sane(frames) else Complete(frames, Sum(chunks))]
    decreases |chunks|
  {
    hide Dispatch, Fill;
    if chunks == [] {
      if frames != [] {
        assert Framed(frames[0]);
      }
      assert frames[..0] == [] && frames[0..] == frames;
    } else {
      var before := chunks[..|chunks| - 1];
      EveryReadPattern(frames, before, accepts);
      if !Poisoned(frames, Sum(before)) {
        ReadStands(Receive(frames, before, accepts), frames, Sum(before), Sum(chunks), accepts);
      }
    }
  }

  /** The receiver after any reads at all; a poisoned one reads no more. */
  ghost function Absorb(arrivals: seq<Arrival>, accepts: nat -> bool): Rx
  {
    if arrivals == [] then EMPTY
    else
      var last, before := arrivals[|arrivals| - 1], Absorb(arrivals[..|arrivals| - 1], accepts);
      if before.failed then before else Dispatch(Fill(before, last), accepts)
  }

  /** The bytes, and the copies of descriptor `x`, that those reads took in. */
  ghost function Taken(arrivals: seq<Arrival>, accepts: nat -> bool): seq<Byte>
  {
    if arrivals == [] then []
    else
      var before := arrivals[..|arrivals| - 1];
      Taken(before, accepts) + (if Absorb(before, accepts).failed then [] else arrivals[|arrivals| - 1].bytes)
  }

  ghost function Installed(arrivals: seq<Arrival>, accepts: nat -> bool, x: int): nat
  {
    if arrivals == [] then 0
    else
      var before := arrivals[..|arrivals| - 1];
      Installed(before, accepts, x) + (if Absorb(before, accepts).failed then 0 else Count(arrivals[|arrivals| - 1].fds, x))
  }

  /** Every byte that left the buffer left it inside a delivered frame. */
  ghost predicate BytesKept(rx: Rx, taken: seq<Byte>)
  {
    if rx.failed then Stream(rx.delivered) <= taken else Stream(rx.delivered) + rx.buffered == taken
  }

  lemma {:induction false} StreamSnoc(f: seq<Delivery>, d: Delivery)
    ensures Stream(f + [d]) == Stream(f) + d.frame
  {
    if f == [] {
      assert f + [d] == [d];
    } else {
      assert (f + [d])[1..] == f[1..] + [d];
      StreamSnoc(f[1..], d);
    }
  }

  lemma FailBytes(rx: Rx, taken: seq<Byte>)
    requires BytesKept(rx, taken)
    ensures BytesKept(Fail(rx), taken)
  {
  }

  lemma TakeFrameBytes(rx: Rx, accepts: nat -> bool, taken: seq<Byte>)
    requires !rx.failed && FrameReady(rx) && BytesKept(rx, taken)
    ensures BytesKept(TakeFrame(rx, accepts), taken)
  {
    hide ParseHeader;
    var h, next := ParseHeader(rx.buffered), TakeFrame(rx, accepts);
    assert rx.buffered == rx.buffered[..h.size] + rx.buffered[h.size..];
    if next.delivered != rx.delivered {
      StreamSnoc(rx.delivered, next.delivered[|rx.delivered|]);
    }
  }

  lemma {:induction false} DispatchBytes(rx: Rx, accepts: nat -> bool, taken: seq<Byte>)
    requires !rx.failed && BytesKept(rx, taken)
    ensures BytesKept(Dispatch(rx, accepts), taken)
    decreases |rx.buffered|
  {
    hide ParseHeader, TakeFrame, BytesKept;
    FailBytes(rx, taken);
    if |rx.buffered| >= HEADER_LEN && FrameReady(rx) {
      var next := TakeFrame(rx, accepts);
      TakeFrameBytes(rx, accepts, taken);
      if !next.failed {
        DispatchBytes(next, accepts, taken);
      }
    }
  }

  /** Against any peer: frames are consecutive slices of what arrived, each with
    * a descriptor exactly when its header declares one, and every descriptor
    * the kernel installed is in exactly one place. */
  lemma {:induction false} AnyPeer(arrivals: seq<Arrival>, accepts: nat -> bool)
    requires forall r | r in arrivals :: NO_FD !in r.fds
    ensures var rx := Absorb(arrivals, accepts);
            && Sound(rx) && BytesKept(rx, Taken(arrivals, accepts))
            && forall x :: Held(rx, x) == Installed(arrivals, accepts, x)
    decreases |arrivals|
  {
    hide Held, Count, BytesKept, Dispatch, Fill;
    if arrivals == [] {
      EmptyHoldsNothing();
    } else {
      var last, before := arrivals[|arrivals| - 1], arrivals[..|arrivals| - 1];
      AnyPeer(before, accepts);
      var rx := Absorb(before, accepts);
      if !rx.failed {
        var filled := Fill(rx, last);
        FillSound(rx, last);
        DispatchSound(filled, accepts);
        FillThenDispatch(rx, last, accepts, Taken(before, accepts));
        forall x ensures Held(filled, x) == Held(rx, x) + Count(last.fds, x) {
          FillKeeps(rx, last, x);
        }
      } else {
        assert Taken(arrivals, accepts) == Taken(before, accepts);
      }
    }
  }

  lemma EmptyHoldsNothing()
    ensures BytesKept(EMPTY, []) && forall x :: Held(EMPTY, x) == 0
  {
  }

  lemma FillThenDispatch(rx: Rx, r: Arrival, accepts: nat -> bool, taken: seq<Byte>)
    requires !rx.failed && BytesKept(rx, taken)
    ensures BytesKept(Dispatch(Fill(rx, r), accepts), taken + r.bytes)
  {
    var filled := Fill(rx, r);
    assert filled.delivered == rx.delivered;
    if !filled.failed {
      assert Stream(rx.delivered) + (rx.buffered + r.bytes) == taken + r.bytes;
      DispatchBytes(filled, accepts, taken + r.bytes);
    }
  }

  // ---- the transport object ------------------------------------------------

  /** How `recvmsg` comes back; an interrupted call is made again. */
  datatype Got = Read(arrival: Arrival) | Nothing | Reset | ReadError

  function Took(rx: Rx, got: Got): Rx
  {
    match got
    case Read(a) => Fill(rx, a)
    case ReadError => Fail(rx)
    case _ => rx
  }

  /** The receive side of `struct vitrin_wire`: a fixed reassembly buffer that
    * is filled at its tail and compacted in place. */
  class Wire {
    const rx: array<Byte>
    var rxLen: nat
    var consumed: nat
    var pending: seq<PendingFd>
    var failed: bool
    var eof: bool
    var delivered: seq<Delivery>
    var closed: seq<int>

    ghost predicate Valid()
      reads this
    {
      rx.Length == MAX_FRAME && rxLen <= MAX_FRAME
    }

    /** The state while a dispatch stands at `pos` in the buffer. */
    ghost function ViewFrom(pos: nat): Rx
      reads this, rx
      requires Valid() && pos <= rxLen
    {
      Rx(rx[pos..rxLen], consumed + pos, pending, failed, delivered, closed)
    }

    ghost function View(): Rx
      reads this, rx
      requires Valid()
    {
      ViewFrom(0)
    }

    constructor ()
      ensures Valid() && View() == EMPTY && !eof && fresh(rx)
    {
      rx := new Byte[MAX_FRAME];
      rxLen, consumed, pending, failed, eof, delivered, closed := 0, 0, [], false, false, [], [];
    }

    /** `wire_fail` */
    method Poison()
      requires Valid()
      modifies this`pending, this`closed, this`failed
      ensures Valid() && View() == Fail(old(View()))
    {
      failed := true;
      closed := closed + PendingFds(pending);
      pending := [];
    }

    /** `wire_fill`: a full buffer fails before the read; an empty read or a reset
      * ends the stream, and any other error fails it. */
    method FillFrom(got: Got)
      requires Valid() && !failed && |pending| <= MAX_UNCLAIMED
      requires got.Read? ==> rxLen + |got.arrival.bytes| <= MAX_FRAME
      modifies this, rx
      ensures Valid()
      ensures View() == if old(rxLen) == MAX_FRAME then Fail(old(View())) else Took(old(View()), got)
      ensures got.ReadError? || (got.Read? && got.arrival.truncated) || old(rxLen) == MAX_FRAME ==> failed
      ensures (got.Nothing? || got.Reset?) && old(rxLen) < MAX_FRAME ==> !failed && View() == old(View())
      ensures eof <==> old(eof) || (old(rxLen) < MAX_FRAME && (got.Reset? || (got.Read? && got.arrival.bytes == [] && !failed)))
    {
      if rxLen == rx.Length {
        Poison();
        return;
      }
      match got {
        case Nothing => return;
        case Reset =>
          eof := true;
          return;
        case ReadError =>
          Poison();
          return;
        case Read(_) =>
      }
      var a := got.arrival;
      Receive(a.bytes);
      Queue(|a.bytes|, a.fds);
      if failed {
        return;
      }
      if a.truncated {
        Poison();
        return;
      }
      if a.bytes == [] {
        eof := true;
        assert rx[0..rxLen] == old(rx[0..rxLen]) + a.bytes;
        return;
      }
      rxLen := rxLen + |a.bytes|;
      assert rx[0..rxLen] == old(rx[0..rxLen]) + a.bytes;
    }

    /** The kernel writes past the buffered bytes. */
    method Receive(bytes: seq<Byte>)
      requires Valid() && rxLen + |bytes| <= MAX_FRAME
      modifies rx
      ensures rx[..rxLen] == old(rx[..rxLen]) && rx[rxLen..rxLen + |bytes|] == bytes
    {
      for i := 0 to |bytes|
        invariant rx[..rxLen] == old(rx[..rxLen])
        invariant rx[rxLen..rxLen + i] == bytes[..i]
      {
        rx[rxLen + i] := bytes[i];
      }
    }

    /** Harvest the descriptors, closing those the queue cannot hold. */
    method Queue(n: nat, fds: seq<int>)
      requires Valid() && !failed && |pending| <= MAX_UNCLAIMED
      modifies this`pending, this`closed, this`failed
      ensures View() == Harvest(old(View()), n, fds)
    {
      var spanStart, spanEnd := consumed + rxLen, consumed + rxLen + n;
      ghost var was, shut := pending, closed;
      var overflow := false;
      for i := 0 to |fds|
        invariant !failed && (overflow <==> |was| + i > MAX_UNCLAIMED)
        invariant var kept := if overflow then MAX_UNCLAIMED - |was| else i;
                  pending == was + Tag(fds[..kept], spanStart, spanEnd) && closed == shut + fds[kept..i]
      {
        if |pending| >= MAX_UNCLAIMED {
          closed := closed + [fds[i]];
          overflow := true;
        } else {
          pending := pending + [PendingFd(spanStart, spanEnd, fds[i])];
        }
      }
      assert fds[..|fds|] == fds;
      if overflow {
        failed := true;
        closed := closed + PendingFds(pending);
        pending := [];
      }
    }

    /** One turn of the dispatch loop: a whole frame stands at `pos`. */
    method TakeAt(pos: nat, accepts: nat -> bool) returns (next: nat)
      requires Valid() && pos <= rxLen && FrameReady(ViewFrom(pos)) && !failed
      modifies this`pending, this`closed, this`failed, this`delivered
      ensures pos <= next <= rxLen
      ensures var r := TakeFrame(old(ViewFrom(pos)), accepts);
              && failed == r.failed && pending == r.pending && delivered == r.delivered && closed == r.closed
              && (!failed ==> ViewFrom(next) == r)
    {
      hide ParseHeader;
      var h := ParseHeader(rx[pos..rxLen]);
      next := pos + h.size;
      var fd := NO_FD;
      if h.fdCount == 1 {
        if pending == [] || pending[0].spanStart > consumed + pos {
          Poison();
          return;
        }
        fd := pending[0].fd;
        pending := pending[1..];
      }
      if pending != [] && pending[0].spanEnd <= consumed + next {
        if h.fdCount == 1 {
          closed := closed + [fd];
        }
        Poison();
        return;
      }
      var d := Delivery(rx[pos..next], fd);
      assert rx[pos..rxLen][..h.size] == d.frame && rx[pos..rxLen][h.size..] == rx[next..rxLen];
      delivered := delivered + [d];
      if !accepts(|delivered| - 1) {
        Poison();
      }
    }

    /** `wire_dispatch`: on failure the buffer is left as it was. */
    method DispatchAll(accepts: nat -> bool)
      requires Valid() && !failed
      modifies this, rx
      ensures Valid()
      ensures var d := Dispatch(old(View()), accepts);
              && failed == d.failed && pending == d.pending && delivered == d.delivered && closed == d.closed
              && (!failed ==> View() == d)
    {
      hide ParseHeader, TakeFrame;
      ghost var goal := Dispatch(View(), accepts);
      var pos := 0;
      while rxLen - pos >= HEADER_LEN
        invariant Valid() && pos <= rxLen && !failed
        invariant Dispatch(ViewFrom(pos), accepts) == goal
        modifies this`pending, this`closed, this`failed, this`delivered
        decreases rxLen - pos
      {
        var h := ParseHeader(rx[pos..rxLen]);
        if h.size < HEADER_LEN || h.fdCount > 1 {
          Poison();
          return;
        }
        if rxLen - pos < h.size {
          break;
        }
        pos := TakeAt(pos, accepts);
        if failed {
          return;
        }
      }
      assert Dispatch(ViewFrom(pos), accepts) == ViewFrom(pos);
      Compact(pos);
    }

    /** `memmove` the unread tail to the front. */
    method Compact(pos: nat)
      requires Valid() && pos <= rxLen
      modifies this, rx
      ensures Valid() && View() == old(ViewFrom(pos))
    {
      ghost var tail := rx[pos..rxLen];
      MoveDown(pos);
      rxLen := rxLen - pos;
      consumed := consumed + pos;
      assert rx[0..rxLen] == tail;
    }

    method MoveDown(pos: nat)
      requires Valid() && pos <= rxLen
      modifies rx
      ensures rx[..rxLen - pos] == old(rx[pos..rxLen])
    {
      for i := 0 to rxLen - pos
        invariant forall k | 0 <= k < i :: rx[k] == old(rx[pos + k])
        invariant forall j | pos + i <= j < rxLen :: rx[j] == old(rx[j])
      {
        rx[i] := rx[pos + i];
      }
    }
  }
}
