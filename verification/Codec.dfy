/** The wire codec as an interpreter of message signatures.
  *
  * Every generated encode/decode pair runs the same two algorithms over its own
  * list of argument types. Here the list is data, so one proof covers every
  * message: what an encoder writes its decoder returns, and what a decoder
  * accepts is exactly what the encoder writes. */
module Codec {
  import opened Bytes
  import opened Bits

  const HEADER_LEN := 8

  datatype ArgType =
    | TU32
    | TI32
    | TEnum(values: set<int>)
    | TBits(mask: nat)
    | TStr(max: nat)
    | TFd

  /** One argument value. An enum or bitfield argument is any u32 on the
    * encoding side: only the decoder checks membership. */
  datatype Arg =
    | AU32(u: U32)
    | AI32(i: I32)
    | AEnum(e: U32)
    | ABits(b: U32)
    | AStr(s: seq<Byte>)
    | AFd(fd: int)

  datatype Status =
    | Truncated
    | StringTooLong
    | InvalidEnum
    | InvalidBitfield
    | FdMismatch
    | TrailingBytes
    | MalformedPadding
    | SizeMismatch
    | OpcodeMismatch

  datatype EncodeError = Overflow | TooLong

  datatype Result<+T, +E> = Ok(value: T) | Err(error: E) {
    predicate IsFailure() { Err? }
    function PropagateFailure<U>(): Result<U, E> requires Err? { Err(error) }
    function Extract(): T requires Ok? { value }
  }

  datatype Header = Header(objectId: U32, size: nat, opcode: Byte, fdCount: Byte)

  datatype Message = Message(opcode: Byte, sig: seq<ArgType>)

  datatype Decoded = Decoded(objectId: U32, args: seq<Arg>)

  // ---- arguments -------------------------------------------------------

  function PadLen(len: nat): (n: nat)
    ensures n < 4 && (len + n) % 4 == 0
  {
    (4 - len % 4) % 4
  }

  function StringBytes(s: seq<Byte>): (bs: seq<Byte>)
    requires |s| < U32_LIMIT
    ensures |bs| == 4 + |s| + PadLen(|s|)
  {
    U32Bytes(|s|) + s + Zeros(PadLen(|s|))
  }

  predicate BitsValid(v: U32, mask: nat)
  {
    // (v & ~mask) == 0 on 32 bits
    And(v, if mask < U32_LIMIT then U32_LIMIT - 1 - mask else 0) == 0
  }

  /** The C type of the struct field: what can be stored in it at all. */
  predicate Typed(t: ArgType, a: Arg)
  {
    match t
    case TU32 => a.AU32?
    case TI32 => a.AI32?
    case TEnum(_) => a.AEnum?
    case TBits(_) => a.ABits?
    case TStr(_) => a.AStr? && |a.s| < U32_LIMIT
    case TFd => a.AFd?
  }

  predicate TypedAll(sig: seq<ArgType>, args: seq<Arg>)
  {
    |sig| == |args| && forall i | 0 <= i < |sig| :: Typed(sig[i], args[i])
  }

  /** The decoder's complaint about a well-typed argument, if it has one. */
  function Complaint(t: ArgType, a: Arg): (r: Result<(), Status>)
    requires Typed(t, a)
  {
    match t
    case TEnum(values) => if a.e in values then Ok(()) else Err(InvalidEnum)
    case TBits(mask) => if BitsValid(a.b, mask) then Ok(()) else Err(InvalidBitfield)
    case TStr(max) => if |a.s| <= max then Ok(()) else Err(StringTooLong)
    case _ => Ok(())
  }

  function FirstComplaint(sig: seq<ArgType>, args: seq<Arg>, i: nat): (r: Result<(), Status>)
    requires TypedAll(sig, args) && i <= |sig|
    decreases |sig| - i
  {
    if i == |sig| then Ok(())
    else
      var here := Complaint(sig[i], args[i]);
      if here.Err? then here else FirstComplaint(sig, args, i + 1)
  }

  function ArgBytes(a: Arg): (bs: seq<Byte>)
    requires a.AStr? ==> |a.s| < U32_LIMIT
  {
    match a
    case AU32(v) => U32Bytes(v)
    case AI32(v) => U32Bytes(ToUnsigned(v))
    case AEnum(v) => U32Bytes(v)
    case ABits(v) => U32Bytes(v)
    case AStr(s) => StringBytes(s)
    case AFd(_) => []
  }

  function Body(sig: seq<ArgType>, args: seq<Arg>, i: nat): (bs: seq<Byte>)
    requires TypedAll(sig, args) && i <= |sig|
    decreases |sig| - i
  {
    if i == |sig| then [] else ArgBytes(args[i]) + Body(sig, args, i + 1)
  }

  // ---- frames ----------------------------------------------------------

  predicate HasFd(sig: seq<ArgType>)
  {
    TFd in sig
  }

  function HeaderBytes(h: Header): (bs: seq<Byte>)
    requires h.size < U16_LIMIT
    ensures |bs| == HEADER_LEN
  {
    U32Bytes(h.objectId) + [h.size % 256, h.size / 256, h.opcode, h.fdCount]
  }

  function ParseHeader(bs: seq<Byte>): (h: Header)
    requires |bs| >= HEADER_LEN
    ensures h.size < U16_LIMIT
  {
    var low: int, high: int := bs[4], bs[5];
    Header(U32At(bs, 0), low + 256 * high, bs[6], bs[7])
  }

  function FdCount(sig: seq<ArgType>): Byte
  {
    if HasFd(sig) then 1 else 0
  }

  predicate StringsFit(sig: seq<ArgType>, args: seq<Arg>)
    requires TypedAll(sig, args)
  {
    forall i | 0 <= i < |sig| && sig[i].TStr? :: |args[i].s| <= sig[i].max
  }

  function FrameBytes(m: Message, objectId: U32, args: seq<Arg>): (bs: seq<Byte>)
    requires TypedAll(m.sig, args)
    requires HEADER_LEN + |Body(m.sig, args, 0)| < U16_LIMIT
  {
    var body := Body(m.sig, args, 0);
    HeaderBytes(Header(objectId, HEADER_LEN + |body|, m.opcode, FdCount(m.sig))) + body
  }

  /** `*_encode`: bounds first, then the size against the u16 ceiling and the
    * caller's capacity, then the bytes. */
  function Encode(m: Message, objectId: U32, args: seq<Arg>, capacity: nat): (r: Result<seq<Byte>, EncodeError>)
    requires TypedAll(m.sig, args)
  {
    if !StringsFit(m.sig, args) then Err(TooLong)
    else
      var size := HEADER_LEN + |Body(m.sig, args, 0)|;
      if size > 0xffff || size > capacity then Err(Overflow)
      else Ok(FrameBytes(m, objectId, args))
  }

  // ---- decoding --------------------------------------------------------

  datatype Read = Read(arg: Arg, pos: nat)

  function ReadString(bs: seq<Byte>, pos: nat, max: nat): (r: Result<Read, Status>)
  {
    if pos + 4 > |bs| then Err(Truncated)
    else
      var len := U32At(bs, pos);
      if len > max then Err(StringTooLong)
      else if pos + 4 + len > |bs| then Err(Truncated)
      else if pos + 4 + len + PadLen(len) > |bs| then Err(Truncated)
      else if exists i | pos + 4 + len <= i < pos + 4 + len + PadLen(len) :: bs[i] != 0 then Err(MalformedPadding)
      else Ok(Read(AStr(bs[pos + 4..pos + 4 + len]), pos + 4 + len + PadLen(len)))
  }

  function WordArg(t: ArgType, v: U32): (r: Result<Arg, Status>)
    requires !t.TFd? && !t.TStr?
  {
    match t
    case TU32 => Ok(AU32(v))
    case TI32 => Ok(AI32(ToSigned(v)))
    case TEnum(values) => if v in values then Ok(AEnum(v)) else Err(InvalidEnum)
    case TBits(mask) => if BitsValid(v, mask) then Ok(ABits(v)) else Err(InvalidBitfield)
  }

  function ReadArg(t: ArgType, bs: seq<Byte>, pos: nat, fd: int): (r: Result<Read, Status>)
  {
    if t.TFd? then Ok(Read(AFd(fd), pos))
    else if t.TStr? then ReadString(bs, pos, t.max)
    else if pos + 4 > |bs| then Err(Truncated)
    else
      match WordArg(t, U32At(bs, pos))
      case Err(e) => Err(e)
      case Ok(a) => Ok(Read(a, pos + 4))
  }

  /** Decode the arguments from number `i` on, at `pos`, given those before. */
  function ReadArgs(sig: seq<ArgType>, i: nat, done: seq<Arg>, bs: seq<Byte>, pos: nat, fd: int)
    : (r: Result<seq<Arg>, Status>)
    requires i <= |sig|
    decreases |sig| - i
  {
    if i == |sig| then (if pos != |bs| then Err(TrailingBytes) else Ok(done))
    else
      match ReadArg(sig[i], bs, pos, fd)
      case Err(e) => Err(e)
      case Ok(Read(a, next)) => ReadArgs(sig, i + 1, done + [a], bs, next, fd)
  }

  /** `*_decode`: the gates in the order the generated code tests them. */
  function Decode(m: Message, bs: seq<Byte>, fd: int): (r: Result<Decoded, Status>)
  {
    if (fd >= 0) != HasFd(m.sig) then Err(FdMismatch)
    else if |bs| < HEADER_LEN then Err(Truncated)
    else
      var h := ParseHeader(bs);
      if h.opcode != m.opcode then Err(OpcodeMismatch)
      else if h.size != |bs| then Err(SizeMismatch)
      else if h.fdCount != FdCount(m.sig) then Err(FdMismatch)
      else
        match ReadArgs(m.sig, 0, [], bs, HEADER_LEN, fd)
        case Err(e) => Err(e)
        case Ok(args) => Ok(Decoded(h.objectId, args))
  }

  // ---- one argument at a time -------------------------------------------

  /** The value, or the decoder's complaint about it. */
  function ReadBack(t: ArgType, a: Arg, next: nat): (r: Result<Read, Status>)
    requires Typed(t, a)
  {
    match Complaint(t, a)
    case Ok(_) => Ok(Read(a, next))
    case Err(e) => Err(e)
  }

  /** Reading back what was written: the value, or exactly its complaint. */
  lemma ReadWritten(t: ArgType, a: Arg, bs: seq<Byte>, pos: nat, fd: int)
    requires Typed(t, a) && (t.TFd? ==> a.fd == fd)
    requires t.TStr? ==> |a.s| <= t.max
    requires pos + |ArgBytes(a)| <= |bs|
    requires bs[pos..pos + |ArgBytes(a)|] == ArgBytes(a)
    ensures ReadArg(t, bs, pos, fd) == ReadBack(t, a, pos + |ArgBytes(a)|)
  {
    match a
    case AFd(_) =>
    case AStr(s) => ReadWrittenString(s, t.max, bs, pos);
    case AU32(v) => U32AtOfBytes(bs, pos, v);
    case AI32(v) => U32AtOfBytes(bs, pos, ToUnsigned(v));
    case AEnum(v) => U32AtOfBytes(bs, pos, v);
    case ABits(v) => U32AtOfBytes(bs, pos, v);
  }

  lemma ReadWrittenString(s: seq<Byte>, max: nat, bs: seq<Byte>, pos: nat)
    requires |s| < U32_LIMIT && |s| <= max
    requires pos + |StringBytes(s)| <= |bs|
    requires bs[pos..pos + |StringBytes(s)|] == StringBytes(s)
    ensures ReadString(bs, pos, max) == Ok(Read(AStr(s), pos + |StringBytes(s)|))
  {
    hide U32Bytes, U32At;
    var w := StringBytes(s);
    SliceWithin(bs, pos, |w|, 0, 4);
    SliceWithin(bs, pos, |w|, 4, 4 + |s|);
    SliceWithin(bs, pos, |w|, 4 + |s|, |w|);
    assert w[0..4] == U32Bytes(|s|) && w[4..4 + |s|] == s && w[4 + |s|..|w|] == Zeros(PadLen(|s|));
    U32AtOfBytes(bs, pos, |s|);
    var pad := bs[pos + 4 + |s|..pos + |w|];
    forall i | pos + 4 + |s| <= i < pos + |w|
      ensures bs[i] == 0
    {
      assert bs[i] == pad[i - pos - 4 - |s|];
    }
  }

  /** What a read accepts is exactly what writing its result produces. */
  lemma WrittenRead(t: ArgType, bs: seq<Byte>, pos: nat, fd: int)
    requires pos <= |bs|
    requires ReadArg(t, bs, pos, fd).Ok?
    ensures var Read(a, next) := ReadArg(t, bs, pos, fd).value;
            && Typed(t, a) && Complaint(t, a).Ok? && (t.TFd? ==> a.fd == fd)
            && pos <= next <= |bs| && bs[pos..next] == ArgBytes(a)
  {
    if t.TStr? {
      WrittenReadString(bs, pos, t.max);
    } else if !t.TFd? {
      BytesOfU32At(bs, pos);
    }
  }

  lemma WrittenReadString(bs: seq<Byte>, pos: nat, max: nat)
    requires ReadString(bs, pos, max).Ok?
    ensures var Read(a, next) := ReadString(bs, pos, max).value;
            a.AStr? && |a.s| <= max && |a.s| < U32_LIMIT && pos <= next <= |bs| && bs[pos..next] == StringBytes(a.s)
  {
    var len := U32At(bs, pos);
    var next := pos + 4 + len + PadLen(len);
    BytesOfU32At(bs, pos);
    assert bs[pos..next] == bs[pos..pos + 4] + bs[pos + 4..pos + 4 + len] + bs[pos + 4 + len..next];
    assert bs[pos + 4 + len..next] == Zeros(PadLen(len));
  }

  // ---- whole bodies ------------------------------------------------------

  lemma BodySplit(sig: seq<ArgType>, args: seq<Arg>, i: nat, bs: seq<Byte>, pos: nat)
    requires TypedAll(sig, args) && i < |sig|
    requires pos <= |bs| && bs[pos..] == Body(sig, args, i)
    ensures var next := pos + |ArgBytes(args[i])|;
            next <= |bs| && bs[pos..next] == ArgBytes(args[i]) && bs[next..] == Body(sig, args, i + 1)
  {
    hide ArgBytes;
    var head, tail := ArgBytes(args[i]), Body(sig, args, i + 1);
    assert bs[pos..] == head + tail;
    assert bs[pos..pos + |head|] == bs[pos..][..|head|];
    assert bs[pos + |head|..] == bs[pos..][|head|..];
  }

  lemma {:induction false} ReadBody(sig: seq<ArgType>, args: seq<Arg>, i: nat, bs: seq<Byte>, pos: nat, fd: int)
    requires TypedAll(sig, args) && i <= |sig| && StringsFit(sig, args) && FdsAre(sig, args, fd)
    requires pos <= |bs| && bs[pos..] == Body(sig, args, i)
    ensures ReadArgs(sig, i, args[..i], bs, pos, fd)
         == match FirstComplaint(sig, args, i)
            case Ok(_) => Ok(args)
            case Err(e) => Err(e)
    decreases |sig| - i
  {
    hide ReadArg, Complaint, ArgBytes;
    if i == |sig| {
      assert args[..i] == args;
    } else {
      BodySplit(sig, args, i, bs, pos);
      ReadWritten(sig[i], args[i], bs, pos, fd);
      if Complaint(sig[i], args[i]).Ok? {
        assert args[..i] + [args[i]] == args[..i + 1];
        ReadBody(sig, args, i + 1, bs, pos + |ArgBytes(args[i])|, fd);
      }
    }
  }

  /** Every fd argument carries the out-of-band descriptor `fd`. */
  predicate FdsAre(sig: seq<ArgType>, args: seq<Arg>, fd: int)
    requires TypedAll(sig, args)
  {
    forall i | 0 <= i < |sig| && sig[i].TFd? :: args[i].fd == fd
  }

  predicate Accepted(t: ArgType, a: Arg, fd: int)
  {
    Typed(t, a) && Complaint(t, a).Ok? && (t.TFd? ==> a.fd == fd)
  }

  lemma {:induction false} ReadArgsExtends(sig: seq<ArgType>, i: nat, done: seq<Arg>, bs: seq<Byte>, pos: nat, fd: int)
    requires i <= |sig| && pos <= |bs| && |done| == i
    requires forall k | 0 <= k < i :: Accepted(sig[k], done[k], fd)
    requires ReadArgs(sig, i, done, bs, pos, fd).Ok?
    ensures var args := ReadArgs(sig, i, done, bs, pos, fd).value;
            |args| == |sig| && done <= args && forall k | 0 <= k < |sig| :: Accepted(sig[k], args[k], fd)
    decreases |sig| - i
  {
    if i < |sig| {
      WrittenRead(sig[i], bs, pos, fd);
      var Read(a, next) := ReadArg(sig[i], bs, pos, fd).value;
      ReadArgsExtends(sig, i + 1, done + [a], bs, next, fd);
    }
  }

  lemma {:induction false} BodyRead(sig: seq<ArgType>, i: nat, done: seq<Arg>, args: seq<Arg>, bs: seq<Byte>, pos: nat, fd: int)
    requires i <= |sig| && pos <= |bs| && |done| == i
    requires ReadArgs(sig, i, done, bs, pos, fd) == Ok(args)
    requires TypedAll(sig, args) && forall k | 0 <= k < i :: Accepted(sig[k], done[k], fd)
    ensures bs[pos..] == Body(sig, args, i)
    decreases |sig| - i
  {
    hide ReadArg, ArgBytes, Complaint;
    if i < |sig| {
      WrittenRead(sig[i], bs, pos, fd);
      var Read(a, next) := ReadArg(sig[i], bs, pos, fd).value;
      ReadArgsExtends(sig, i + 1, done + [a], bs, next, fd);
      assert args[i] == (done + [a])[i];
      BodyRead(sig, i + 1, done + [a], args, bs, next, fd);
      assert bs[pos..] == bs[pos..next] + bs[next..];
    }
  }

  lemma ParseOfHeaderBytes(h: Header, rest: seq<Byte>)
    requires h.size < U16_LIMIT
    ensures ParseHeader(HeaderBytes(h) + rest) == h
  {
    var bs := HeaderBytes(h) + rest;
    assert bs[0..4] == U32Bytes(h.objectId);
    U32AtOfBytes(bs, 0, h.objectId);
  }

  lemma HeaderBytesOfParse(bs: seq<Byte>)
    requires |bs| >= HEADER_LEN
    ensures HeaderBytes(ParseHeader(bs)) == bs[..HEADER_LEN]
  {
    BytesOfU32At(bs, 0);
    DivMod256(bs[4], bs[5]);
  }

  // ---- the two laws ------------------------------------------------------

  /** A decoder applied to an encoder's output returns the same object id and
    * arguments, unless an enum or bitfield argument is out of range; then it
    * reports the first such argument, and nothing else can go wrong. */
  lemma DecodeOfEncode(m: Message, objectId: U32, args: seq<Arg>, capacity: nat, fd: int)
    requires TypedAll(m.sig, args) && FdsAre(m.sig, args, fd) && (fd >= 0) == HasFd(m.sig)
    requires Encode(m, objectId, args, capacity).Ok?
    ensures Decode(m, Encode(m, objectId, args, capacity).value, fd)
         == match FirstComplaint(m.sig, args, 0)
            case Ok(_) => Ok(Decoded(objectId, args))
            case Err(e) => Err(e)
  {
    var bs := Encode(m, objectId, args, capacity).value;
    var body := Body(m.sig, args, 0);
    ParseOfHeaderBytes(Header(objectId, HEADER_LEN + |body|, m.opcode, FdCount(m.sig)), body);
    assert bs[HEADER_LEN..] == body;
    assert args[..0] == [];
    ReadBody(m.sig, args, 0, bs, HEADER_LEN, fd);
  }

  /** Any byte string a decoder accepts is the encoding of what it decoded, so
    * padding is zero, the size is exact and nothing trails. */
  lemma EncodeOfDecode(m: Message, bs: seq<Byte>, fd: int)
    requires Decode(m, bs, fd).Ok?
    ensures var Decoded(objectId, args) := Decode(m, bs, fd).value;
            && TypedAll(m.sig, args) && FdsAre(m.sig, args, fd)
            && FirstComplaint(m.sig, args, 0).Ok?
            && forall capacity: nat | capacity >= |bs| :: Encode(m, objectId, args, capacity) == Ok(bs)
  {
    hide ReadArgs, Complaint, Typed, ArgBytes, U32At, U32Bytes, StringsFit, FdsAre, TypedAll;
    var Decoded(objectId, args) := Decode(m, bs, fd).value;
    ReadArgsExtends(m.sig, 0, [], bs, HEADER_LEN, fd);
    AcceptedFit(m.sig, args, fd);
    BodyRead(m.sig, 0, [], args, bs, HEADER_LEN, fd);
    HeaderBytesOfParse(bs);
    assert bs == bs[..HEADER_LEN] + bs[HEADER_LEN..];
    assert FrameBytes(m, objectId, args) == bs;
  }

  lemma AcceptedFit(sig: seq<ArgType>, args: seq<Arg>, fd: int)
    requires |args| == |sig| && forall k | 0 <= k < |sig| :: Accepted(sig[k], args[k], fd)
    ensures TypedAll(sig, args) && FdsAre(sig, args, fd) && StringsFit(sig, args) && FirstComplaint(sig, args, 0).Ok?
  {
    forall k | 0 <= k < |sig| ensures Typed(sig[k], args[k]) && Complaint(sig[k], args[k]).Ok? {
      assert Accepted(sig[k], args[k], fd);
    }
    NoComplaint(sig, args, 0);
    forall k | 0 <= k < |sig| && sig[k].TStr? ensures |args[k].s| <= sig[k].max {
      assert Accepted(sig[k], args[k], fd);
    }
    forall k | 0 <= k < |sig| && sig[k].TFd? ensures args[k].fd == fd {
      assert Accepted(sig[k], args[k], fd);
    }
  }

  lemma {:induction false} NoComplaint(sig: seq<ArgType>, args: seq<Arg>, i: nat)
    requires TypedAll(sig, args) && i <= |sig|
    requires forall k | i <= k < |sig| :: Complaint(sig[k], args[k]).Ok?
    ensures FirstComplaint(sig, args, i).Ok?
    decreases |sig| - i
  {
    if i < |sig| {
      NoComplaint(sig, args, i + 1);
    }
  }

  /** Decoding is injective: two frames of one message that decode to the same
    * value with the same descriptor are the same bytes. */
  lemma DecodeInjective(m: Message, bs: seq<Byte>, cs: seq<Byte>, fd: int)
    requires Decode(m, bs, fd).Ok? && Decode(m, bs, fd) == Decode(m, cs, fd)
    ensures bs == cs
  {
    EncodeOfDecode(m, bs, fd);
    EncodeOfDecode(m, cs, fd);
    var Decoded(objectId, args) := Decode(m, bs, fd).value;
    assert Encode(m, objectId, args, |bs| + |cs|) == Ok(bs);
  }

  // ---- sizes -------------------------------------------------------------

  /** The largest number of bytes a conforming argument takes. */
  function MaxArgLen(t: ArgType): nat
  {
    match t
    case TStr(max) => 4 + max + 3
    case TFd => 0
    case _ => 4
  }

  function MaxBodyLen(sig: seq<ArgType>, i: nat): nat
    requires i <= |sig|
    decreases |sig| - i
  {
    if i == |sig| then 0 else MaxArgLen(sig[i]) + MaxBodyLen(sig, i + 1)
  }

  lemma ArgFits(t: ArgType, a: Arg)
    requires Typed(t, a) && (t.TStr? ==> |a.s| <= t.max)
    ensures |ArgBytes(a)| <= MaxArgLen(t)
  {
  }

  lemma {:induction false} BodyFits(sig: seq<ArgType>, args: seq<Arg>, i: nat)
    requires TypedAll(sig, args) && StringsFit(sig, args) && i <= |sig|
    ensures |Body(sig, args, i)| <= MaxBodyLen(sig, i)
    decreases |sig| - i
  {
    hide ArgBytes, MaxArgLen;
    if i < |sig| {
      ArgFits(sig[i], args[i]);
      BodyFits(sig, args, i + 1);
    }
  }

  /** Where the per-string bounds alone keep a message under the u16 ceiling,
    * the encoder reports overflow exactly when the buffer is too small. */
  lemma OverflowIffSmallBuffer(m: Message, objectId: U32, args: seq<Arg>, capacity: nat)
    requires TypedAll(m.sig, args) && StringsFit(m.sig, args)
    requires HEADER_LEN + MaxBodyLen(m.sig, 0) <= 0xffff
    ensures Encode(m, objectId, args, capacity) == Err(Overflow)
       <==> capacity < HEADER_LEN + |Body(m.sig, args, 0)|
  {
    BodyFits(m.sig, args, 0);
  }

  /** What a decoder accepts is exactly what its encoder can produce: the frames of
    * well-typed arguments it has no complaint about. */
  lemma AcceptedIffEncoding(m: Message, bs: seq<Byte>, fd: int)
    ensures Decode(m, bs, fd).Ok?
       <==> (fd >= 0) == HasFd(m.sig) && exists objectId: U32, args: seq<Arg> :: Frames(m, objectId, args, fd, bs)
  {
    hide Encode, FirstComplaint;
    if Decode(m, bs, fd).Ok? {
      EncodeOfDecode(m, bs, fd);
      var Decoded(objectId, args) := Decode(m, bs, fd).value;
      assert Frames(m, objectId, args, fd, bs);
    }
    if (fd >= 0) == HasFd(m.sig) {
      forall objectId: U32, args: seq<Arg> | Frames(m, objectId, args, fd, bs) ensures Decode(m, bs, fd).Ok? {
        DecodeOfEncode(m, objectId, args, |bs|, fd);
      }
    }
  }

  /** `bs` is the frame of these arguments, and the decoder has no complaint about them. */
  ghost predicate Frames(m: Message, objectId: U32, args: seq<Arg>, fd: int, bs: seq<Byte>)
  {
    && TypedAll(m.sig, args) && FdsAre(m.sig, args, fd) && FirstComplaint(m.sig, args, 0).Ok?
    && Encode(m, objectId, args, |bs|) == Ok(bs)
  }
}
