/** What the codec means byte by byte: where everything in a frame stands, and which
  * fault in a frame the decoder reports. */
module CodecBytes {
  import opened Bytes
  import opened Bits
  import opened Codec

  // ---- where everything stands -------------------------------------------------

  /** Where argument number `i` begins in the frame. */
  function Start(args: seq<Arg>, i: nat): nat
    requires i <= |args| && forall j | 0 <= j < |args| && args[j].AStr? :: |args[j].s| < U32_LIMIT
  {
    if i == 0 then HEADER_LEN else Start(args, i - 1) + |ArgBytes(args[i - 1])|
  }

  lemma {:induction false} BodyAt(sig: seq<ArgType>, args: seq<Arg>, i: nat)
    requires TypedAll(sig, args) && i <= |args|
    ensures HEADER_LEN <= Start(args, i) <= HEADER_LEN + |Body(sig, args, 0)|
    ensures Body(sig, args, 0)[Start(args, i) - HEADER_LEN..] == Body(sig, args, i)
  {
    hide ArgBytes;
    if i > 0 {
      BodyAt(sig, args, i - 1);
      var body, at := Body(sig, args, 0), Start(args, i - 1) - HEADER_LEN;
      assert Body(sig, args, i - 1) == ArgBytes(args[i - 1]) + Body(sig, args, i);
      assert body[at..][|ArgBytes(args[i - 1])|..] == body[Start(args, i) - HEADER_LEN..];
    }
  }

  /** An encoded frame: the object id in four bytes, then the frame's own length in
    * two, least significant first, the opcode and the descriptor count, and then
    * each argument's bytes in order, right after one another, to the end. */
  lemma FrameLayout(m: Message, objectId: U32, args: seq<Arg>, capacity: nat, i: nat)
    requires TypedAll(m.sig, args) && Encode(m, objectId, args, capacity).Ok? && i < |args|
    ensures var bs := Encode(m, objectId, args, capacity).value;
            && |bs| == Start(args, |args|) && Start(args, i + 1) <= |bs|
            && bs[Start(args, i)..Start(args, i + 1)] == ArgBytes(args[i])
  {
    hide ArgBytes, HeaderBytes;
    BodyAt(m.sig, args, i);
    BodyAt(m.sig, args, i + 1);
    BodyAt(m.sig, args, |args|);
    var bs, body := Encode(m, objectId, args, capacity).value, Body(m.sig, args, 0);
    var at, len := Start(args, i) - HEADER_LEN, |ArgBytes(args[i])|;
    assert bs[HEADER_LEN..] == body;
    assert body[at..][..len] == ArgBytes(args[i]);
    assert bs[Start(args, i)..Start(args, i + 1)] == body[at..at + len];
  }

  lemma HeaderLayout(m: Message, objectId: U32, args: seq<Arg>, capacity: nat)
    requires TypedAll(m.sig, args) && Encode(m, objectId, args, capacity).Ok?
    ensures var bs := Encode(m, objectId, args, capacity).value;
            && |bs| >= HEADER_LEN
            && (var a: int, b: int, c: int, d: int := bs[0], bs[1], bs[2], bs[3];
                objectId == a + 0x100 * b + 0x1_0000 * c + 0x100_0000 * d)
            && (var low: int, high: int := bs[4], bs[5]; |bs| == low + 0x100 * high)
            && bs[6] == m.opcode && bs[7] == if TFd in m.sig then 1 else 0
  {
    LittleEndian(objectId);
  }

  /** A string argument: its length in four bytes, its bytes, and zeros up to the next
    * multiple of four. */
  lemma StringLayout(s: seq<Byte>)
    requires |s| < U32_LIMIT
    ensures var bs := StringBytes(s);
            && |bs| % 4 == 0 && 4 + |s| <= |bs| < 8 + |s|
            && (var a: int, b: int, c: int, d: int := bs[0], bs[1], bs[2], bs[3];
                |s| == a + 0x100 * b + 0x1_0000 * c + 0x100_0000 * d)
            && bs[4..4 + |s|] == s && forall i | 4 + |s| <= i < |bs| :: bs[i] == 0
  {
    hide U32Bytes, PadLen, Zeros;
    var bs, len, pad := StringBytes(s), U32Bytes(|s|), Zeros(PadLen(|s|));
    assert bs[0] == len[0] && bs[1] == len[1] && bs[2] == len[2] && bs[3] == len[3];
    LittleEndian(|s|);
    forall i | 4 + |s| <= i < |bs| ensures bs[i] == 0 {
      assert bs[i] == pad[i - 4 - |s|];
    }
  }

  /** An encoder refuses a string over its bound before it looks at the room. */
  lemma TooLongIff(m: Message, objectId: U32, args: seq<Arg>, capacity: nat)
    requires TypedAll(m.sig, args)
    ensures Encode(m, objectId, args, capacity) == Err(TooLong)
       <==> exists i :: 0 <= i < |args| && m.sig[i].TStr? && |args[i].s| > m.sig[i].max
  {
  }

  // ---- which fault is reported ---------------------------------------------------

  /** The gates before any argument, on the bytes: the descriptor, a whole header, the
    * opcode, the length, the count, in that order. */
  lemma GateFaults(m: Message, bs: seq<Byte>, fd: int)
    ensures (fd >= 0) != (TFd in m.sig) ==> Decode(m, bs, fd) == Err(FdMismatch)
    ensures (fd >= 0) == (TFd in m.sig) ==>
              && (|bs| < HEADER_LEN ==> Decode(m, bs, fd) == Err(Truncated))
              && (|bs| >= HEADER_LEN ==>
                    var low: int, high: int := bs[4], bs[5];
                    && (bs[6] != m.opcode ==> Decode(m, bs, fd) == Err(OpcodeMismatch))
                    && (bs[6] == m.opcode && low + 0x100 * high != |bs| ==> Decode(m, bs, fd) == Err(SizeMismatch))
                    && (bs[6] == m.opcode && low + 0x100 * high == |bs| && bs[7] != (if TFd in m.sig then 1 else 0) ==>
                          Decode(m, bs, fd) == Err(FdMismatch)))
  {
  }

  /** A value its type admits: a named enum value, only known bits, a string in bounds. */
  predicate Admissible(t: ArgType, a: Arg)
    requires Typed(t, a)
  {
    && (t.TEnum? ==> a.e in t.values)
    && (t.TBits? ==> And(a.b, t.mask) == a.b)
    && (t.TStr? ==> |a.s| <= t.max)
  }

  predicate SmallMasks(sig: seq<ArgType>)
  {
    forall i | 0 <= i < |sig| && sig[i].TBits? :: sig[i].mask < U32_LIMIT
  }

  /** Masking with the complement leaves nothing exactly when masking keeps all. */
  lemma {:induction false} ComplementMask(k: nat, v: nat, mask: nat)
    requires v < Pow2(k) && mask < Pow2(k)
    ensures And(v, Pow2(k) - 1 - mask) == 0 <==> And(v, mask) == v
  {
    if k > 0 {
      var rest := Pow2(k) - 1 - mask;
      assert rest / 2 == Pow2(k - 1) - 1 - mask / 2 && rest % 2 == 1 - mask % 2;
      ComplementMask(k - 1, v / 2, mask / 2);
      AndStep(v, rest);
      AndStep(v, mask);
      AndBelow(v / 2, mask / 2);
    }
  }

  lemma ComplaintIff(t: ArgType, a: Arg)
    requires Typed(t, a) && (t.TBits? ==> t.mask < U32_LIMIT)
    ensures Complaint(t, a) == if Admissible(t, a) then Ok(())
                               else Err(if t.TEnum? then InvalidEnum else if t.TBits? then InvalidBitfield else StringTooLong)
  {
    if t.TBits? {
      WordLimit();
      ComplementMask(32, a.b, t.mask);
    }
  }

  lemma WordLimit()
    ensures Pow2(32) == U32_LIMIT
  {
    assert Pow2(8) == 256;
    assert Pow2(16) == 65536;
    assert Pow2(24) == 0x100_0000;
  }

  lemma {:induction false} FirstFault(sig: seq<ArgType>, args: seq<Arg>, from: nat, i: nat)
    requires TypedAll(sig, args) && SmallMasks(sig) && from <= i < |sig|
    requires !Admissible(sig[i], args[i]) && forall j | from <= j < i :: Admissible(sig[j], args[j])
    ensures FirstComplaint(sig, args, from)
         == Err(if sig[i].TEnum? then InvalidEnum else if sig[i].TBits? then InvalidBitfield else StringTooLong)
    decreases i - from
  {
    ComplaintIff(sig[from], args[from]);
    if from < i {
      FirstFault(sig, args, from + 1, i);
    }
  }

  /** Of a frame its encoder wrote, the decoder reports the first argument whose value
    * its type does not admit, and why. */
  lemma FirstBadArgument(m: Message, objectId: U32, args: seq<Arg>, capacity: nat, fd: int, i: nat)
    requires TypedAll(m.sig, args) && FdsAre(m.sig, args, fd) && (fd >= 0) == HasFd(m.sig) && SmallMasks(m.sig)
    requires Encode(m, objectId, args, capacity).Ok? && i < |args|
    requires !Admissible(m.sig[i], args[i]) && forall j | 0 <= j < i :: Admissible(m.sig[j], args[j])
    ensures Decode(m, Encode(m, objectId, args, capacity).value, fd)
         == Err(if m.sig[i].TEnum? then InvalidEnum else InvalidBitfield)
  {
    hide Decode;
    FirstFault(m.sig, args, 0, i);
    DecodeOfEncode(m, objectId, args, capacity, fd);
    assert !m.sig[i].TStr?;
  }

  lemma {:induction false} NoFault(sig: seq<ArgType>, args: seq<Arg>, from: nat, i: nat)
    requires TypedAll(sig, args) && SmallMasks(sig) && from <= i < |sig| && FirstComplaint(sig, args, from).Ok?
    ensures Admissible(sig[i], args[i])
    decreases i - from
  {
    ComplaintIff(sig[from], args[from]);
    if from < i {
      NoFault(sig, args, from + 1, i);
    }
  }

  /** And whatever a decoder returns, every argument's type admits it. */
  lemma DecodedAdmissible(m: Message, bs: seq<Byte>, fd: int, i: nat)
    requires Decode(m, bs, fd).Ok? && SmallMasks(m.sig) && i < |m.sig|
    ensures var args := Decode(m, bs, fd).value.args; TypedAll(m.sig, args) && Admissible(m.sig[i], args[i])
  {
    hide Decode, Admissible;
    EncodeOfDecode(m, bs, fd);
    NoFault(m.sig, Decode(m, bs, fd).value.args, 0, i);
  }

  /** A string on the bytes: too long when the length word says so, truncated when its
    * bytes or padding run past the end, malformed when a padding byte is not zero, and
    * otherwise its bytes. */
  lemma StringFaults(bs: seq<Byte>, pos: nat, max: nat)
    ensures pos + 4 > |bs| ==> ReadString(bs, pos, max) == Err(Truncated)
    ensures pos + 4 <= |bs| ==>
              var a: int, b: int, c: int, d: int := bs[pos], bs[pos + 1], bs[pos + 2], bs[pos + 3];
              var len: nat := a + 0x100 * b + 0x1_0000 * c + 0x100_0000 * d;
              var end, next := pos + 4 + len, pos + 4 + (len + 3) / 4 * 4;
              && (len > max ==> ReadString(bs, pos, max) == Err(StringTooLong))
              && (len <= max && next > |bs| ==> ReadString(bs, pos, max) == Err(Truncated))
              && (len <= max && next <= |bs| ==>
                    if forall i | end <= i < next :: bs[i] == 0
                    then ReadString(bs, pos, max) == Ok(Read(AStr(bs[pos + 4..end]), next))
                    else ReadString(bs, pos, max) == Err(MalformedPadding))
  {
    if pos + 4 <= |bs| {
      RoundUp(U32At(bs, pos));
    }
  }

  lemma RoundUp(len: nat)
    ensures len + PadLen(len) == (len + 3) / 4 * 4
  {
  }

  /** A frame with the given body, whose header tells the truth about it. */
  function Wrap(m: Message, objectId: U32, body: seq<Byte>): seq<Byte>
    requires HEADER_LEN + |body| < U16_LIMIT
  {
    HeaderBytes(Header(objectId, HEADER_LEN + |body|, m.opcode, FdCount(m.sig))) + body
  }

  /** The bytes of one argument and those of the rest. */
  lemma HeadAndTail(bs: seq<Byte>, pos: nat, head: seq<Byte>, tail: seq<Byte>)
    requires pos + |head + tail| <= |bs| && bs[pos..pos + |head + tail|] == head + tail
    ensures bs[pos..pos + |head|] == head && bs[pos + |head|..pos + |head| + |tail|] == tail
  {
    var at := bs[pos..pos + |head + tail|];
    assert at[..|head|] == head && at[|head|..] == tail;
  }

  lemma {:induction false} ReadsThenTrails(sig: seq<ArgType>, args: seq<Arg>, i: nat, bs: seq<Byte>, pos: nat, fd: int)
    requires TypedAll(sig, args) && i <= |sig| && StringsFit(sig, args) && FdsAre(sig, args, fd)
    requires FirstComplaint(sig, args, i).Ok?
    requires pos + |Body(sig, args, i)| < |bs| && bs[pos..pos + |Body(sig, args, i)|] == Body(sig, args, i)
    ensures ReadArgs(sig, i, args[..i], bs, pos, fd) == Err(TrailingBytes)
    decreases |sig| - i
  {
    hide ReadArg, Complaint, ArgBytes;
    if i < |sig| {
      HeadAndTail(bs, pos, ArgBytes(args[i]), Body(sig, args, i + 1));
      ReadWritten(sig[i], args[i], bs, pos, fd);
      assert args[..i] + [args[i]] == args[..i + 1];
      ReadsThenTrails(sig, args, i + 1, bs, pos + |ArgBytes(args[i])|, fd);
    }
  }

  /** Past the gates decoding is reading the arguments. */
  lemma DecodeGated(m: Message, bs: seq<Byte>, fd: int)
    requires (fd >= 0) == HasFd(m.sig) && |bs| >= HEADER_LEN
    requires ParseHeader(bs).opcode == m.opcode && ParseHeader(bs).size == |bs|
    requires ParseHeader(bs).fdCount == FdCount(m.sig)
    ensures ReadArgs(m.sig, 0, [], bs, HEADER_LEN, fd).Err? ==>
              Decode(m, bs, fd) == Err(ReadArgs(m.sig, 0, [], bs, HEADER_LEN, fd).error)
    ensures ReadArgs(m.sig, 0, [], bs, HEADER_LEN, fd).Ok? ==>
              Decode(m, bs, fd) == Ok(Decoded(ParseHeader(bs).objectId, ReadArgs(m.sig, 0, [], bs, HEADER_LEN, fd).value))
  {
  }

  /** Anything after the last argument is refused, whatever it is. */
  lemma TrailingIsRefused(m: Message, objectId: U32, args: seq<Arg>, extra: seq<Byte>, fd: int)
    requires TypedAll(m.sig, args) && FdsAre(m.sig, args, fd) && (fd >= 0) == HasFd(m.sig)
    requires StringsFit(m.sig, args) && FirstComplaint(m.sig, args, 0).Ok?
    requires extra != [] && HEADER_LEN + |Body(m.sig, args, 0) + extra| < U16_LIMIT
    ensures Decode(m, Wrap(m, objectId, Body(m.sig, args, 0) + extra), fd) == Err(TrailingBytes)
  {
    hide ReadArgs, FirstComplaint, FdsAre, StringsFit, Body, Decode, HeaderBytes, ParseHeader;
    var body := Body(m.sig, args, 0);
    var bs := Wrap(m, objectId, body + extra);
    ParseOfHeaderBytes(Header(objectId, HEADER_LEN + |body + extra|, m.opcode, FdCount(m.sig)), body + extra);
    assert bs[HEADER_LEN..HEADER_LEN + |body|] == body;
    assert args[..0] == [];
    ReadsThenTrails(m.sig, args, 0, bs, HEADER_LEN, fd);
    DecodeGated(m, bs, fd);
  }

  lemma ReadCut(t: ArgType, a: Arg, bs: seq<Byte>, pos: nat, fd: int)
    requires Typed(t, a) && (t.TStr? ==> |a.s| <= t.max)
    requires pos <= |bs| < pos + |ArgBytes(a)| && bs[pos..] == ArgBytes(a)[..|bs| - pos]
    ensures ReadArg(t, bs, pos, fd) == Err(Truncated)
  {
    if t.TStr? && pos + 4 <= |bs| {
      assert bs[pos..pos + 4] == bs[pos..][..4] == U32Bytes(|a.s|);
      U32AtOfBytes(bs, pos, |a.s|);
    }
  }

  lemma {:induction false} ReadsThenCut(sig: seq<ArgType>, args: seq<Arg>, i: nat, bs: seq<Byte>, pos: nat, fd: int)
    requires TypedAll(sig, args) && i <= |sig| && StringsFit(sig, args) && FdsAre(sig, args, fd)
    requires FirstComplaint(sig, args, i).Ok?
    requires pos <= |bs| < pos + |Body(sig, args, i)| && bs[pos..] == Body(sig, args, i)[..|bs| - pos]
    ensures ReadArgs(sig, i, args[..i], bs, pos, fd) == Err(Truncated)
    decreases |sig| - i
  {
    hide ReadArg, Complaint, ArgBytes;
    if i < |sig| {
      var head, tail := ArgBytes(args[i]), Body(sig, args, i + 1);
      if |bs| - pos < |head| {
        assert (head + tail)[..|bs| - pos] == head[..|bs| - pos];
        ReadCut(sig[i], args[i], bs, pos, fd);
      } else {
        assert bs[pos..pos + |head|] == bs[pos..][..|head|] == head;
        assert bs[pos + |head|..] == bs[pos..][|head|..] == tail[..|bs| - pos - |head|];
        ReadWritten(sig[i], args[i], bs, pos, fd);
        assert args[..i] + [args[i]] == args[..i + 1];
        ReadsThenCut(sig, args, i + 1, bs, pos + |head|, fd);
      }
    }
  }

  /** And a body cut short anywhere is truncated, even under an honest header. */
  lemma CutIsTruncated(m: Message, objectId: U32, args: seq<Arg>, k: nat, fd: int)
    requires TypedAll(m.sig, args) && FdsAre(m.sig, args, fd) && (fd >= 0) == HasFd(m.sig)
    requires StringsFit(m.sig, args) && FirstComplaint(m.sig, args, 0).Ok?
    requires k < |Body(m.sig, args, 0)| && HEADER_LEN + k < U16_LIMIT
    ensures Decode(m, Wrap(m, objectId, Body(m.sig, args, 0)[..k]), fd) == Err(Truncated)
  {
    hide ReadArgs, FirstComplaint, FdsAre, StringsFit, Body, Decode, HeaderBytes, ParseHeader;
    var body := Body(m.sig, args, 0)[..k];
    var bs := Wrap(m, objectId, body);
    ParseOfHeaderBytes(Header(objectId, HEADER_LEN + k, m.opcode, FdCount(m.sig)), body);
    assert bs[HEADER_LEN..] == body;
    assert args[..0] == [];
    ReadsThenCut(m.sig, args, 0, bs, HEADER_LEN, fd);
    DecodeGated(m, bs, fd);
  }
}
