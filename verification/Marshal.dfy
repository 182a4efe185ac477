/** The generated marshalling code itself: straight-line encoders that write a
  * caller's buffer and decoders that walk an input, for messages that between them
  * use every kind of argument. Each is proved to do exactly what the signature
  * interpreter in `Codec` says. */
module Marshal {
  import opened Bytes
  import opened Codec
  import opened Messages

  const ENCODE_OVERFLOW := -1
  const ENCODE_TOO_LONG := -2

  // ---- raw primitives ----------------------------------------------------

  method WriteU32(out: array<Byte>, at: nat, v: U32)
    requires at + 4 <= out.Length
    modifies out
    ensures out[..] == Splice(old(out[..]), at, U32Bytes(v))
    ensures var a: int, b: int, c: int, d: int := out[at], out[at + 1], out[at + 2], out[at + 3];
            v == a + 0x100 * b + 0x1_0000 * c + 0x100_0000 * d
  {
    LittleEndian(v);
    out[at] := v % 256;
    out[at + 1] := v / 0x100 % 256;
    out[at + 2] := v / 0x1_0000 % 256;
    out[at + 3] := v / 0x100_0000 % 256;
  }

  /** memcpy */
  method CopyInto(out: array<Byte>, at: nat, s: seq<Byte>)
    requires at + |s| <= out.Length
    modifies out
    ensures out[..] == Splice(old(out[..]), at, s)
  {
    for i := 0 to |s|
      invariant forall k | 0 <= k < out.Length :: out[k] == if at <= k < at + i then s[k - at] else old(out[k])
    {
      out[at + i] := s[i];
    }
  }

  /** memset to zero */
  method ZeroFill(out: array<Byte>, at: nat, n: nat)
    requires at + n <= out.Length
    modifies out
    ensures out[..] == Splice(old(out[..]), at, Zeros(n))
  {
    for i := 0 to n
      invariant forall k | 0 <= k < out.Length :: out[k] == if at <= k < at + i then 0 else old(out[k])
    {
      out[at + i] := 0;
    }
  }

  method WriteString(out: array<Byte>, at: nat, s: seq<Byte>) returns (n: nat)
    requires |s| < U32_LIMIT && at + |StringBytes(s)| <= out.Length
    modifies out
    ensures n == |StringBytes(s)|
    ensures out[..] == Splice(old(out[..]), at, StringBytes(s))
  {
    hide Splice, U32Bytes, Zeros;
    var pad := PadLen(|s|);
    WriteU32(out, at, |s|);
    CopyInto(out, at + 4, s);
    ZeroFill(out, at + 4 + |s|, pad);
    SpliceAppend(old(out[..]), at, U32Bytes(|s|), s);
    SpliceAppend(old(out[..]), at, U32Bytes(|s|) + s, Zeros(pad));
    n := 4 + |s| + pad;
  }

  method WriteHeader(out: array<Byte>, h: Header)
    requires h.size < U16_LIMIT && HEADER_LEN <= out.Length
    modifies out
    ensures out[..] == Splice(old(out[..]), 0, HeaderBytes(h))
  {
    WriteU32(out, 0, h.objectId);
    out[4] := h.size % 256;
    out[5] := h.size / 256;
    out[6] := h.opcode;
    out[7] := h.fdCount;
  }

  /** Reads back the word whose four bytes `WriteU32` would put there, and never
    * past the end. */
  method ReadU32(input: seq<Byte>, pos: nat) returns (r: Result<U32, Status>)
    ensures r.Err? <==> |input| - pos < 4
    ensures r.Err? ==> r.error == Truncated
    ensures r.Ok? ==>
              var a: int, b: int, c: int, d: int := input[pos], input[pos + 1], input[pos + 2], input[pos + 3];
              r.value == a + 0x100 * b + 0x1_0000 * c + 0x100_0000 * d
    ensures r.Ok? ==> U32Bytes(r.value) == input[pos..pos + 4] && r.value == U32At(input, pos)
  {
    if pos + 4 > |input| {
      return Err(Truncated);
    }
    var b0: int, b1: int, b2: int, b3: int := input[pos], input[pos + 1], input[pos + 2], input[pos + 3];
    BytesOfU32At(input, pos);
    return Ok(b0 + 0x100 * b1 + 0x1_0000 * b2 + 0x100_0000 * b3);
  }

  method NextWord(input: seq<Byte>, pos: nat) returns (r: Result<U32, Status>)
    ensures r == if pos + 4 > |input| then Err(Truncated) else Ok(U32At(input, pos))
  {
    r := ReadU32(input, pos);
  }

  /** Reads a string argument, testing its padding byte by byte. */
  method ReadStringArg(input: seq<Byte>, start: nat, max: nat) returns (r: Result<Read, Status>)
    ensures r == ReadString(input, start, max)
  {
    var pos := start;
    var word := NextWord(input, pos);
    if word.Err? {
      return Err(word.error);
    }
    var len := word.value;
    pos := pos + 4;
    if len > max {
      return Err(StringTooLong);
    }
    if pos + len > |input| {
      return Err(Truncated);
    }
    var s := input[pos..pos + len];
    pos := pos + len;
    var pad := PadLen(len);
    if pos + pad > |input| {
      return Err(Truncated);
    }
    for i := 0 to pad
      invariant forall k | pos <= k < pos + i :: input[k] == 0
    {
      if input[pos + i] != 0 {
        return Err(MalformedPadding);
      }
    }
    return Ok(Read(AStr(s), pos + pad));
  }

  // ---- encoders ------------------------------------------------------------

  /** What an encoder leaves behind: the frame at the front of the buffer and
    * its length, or an error code and an untouched buffer. */
  ghost predicate Encodes(r: Result<seq<Byte>, EncodeError>, before: seq<Byte>, after: seq<Byte>, n: int)
  {
    match r
    case Ok(bs) => |bs| <= |before| && n == |bs| && after == Splice(before, 0, bs)
    case Err(Overflow) => n == ENCODE_OVERFLOW && after == before
    case Err(TooLong) => n == ENCODE_TOO_LONG && after == before
  }

  /** The header and the first `k` arguments. */
  ghost function Written(head: seq<Byte>, sig: seq<ArgType>, args: seq<Arg>, k: nat): (bs: seq<Byte>)
    requires TypedAll(sig, args) && k <= |sig|
  {
    if k == 0 then head else Written(head, sig, args, k - 1) + ArgBytes(args[k - 1])
  }

  lemma {:induction false} WrittenThenBody(head: seq<Byte>, sig: seq<ArgType>, args: seq<Arg>, k: nat)
    requires TypedAll(sig, args) && k <= |sig|
    ensures Written(head, sig, args, k) + Body(sig, args, k) == head + Body(sig, args, 0)
  {
    hide ArgBytes;
    if k > 0 {
      WrittenThenBody(head, sig, args, k - 1);
      assert Written(head, sig, args, k - 1) + (ArgBytes(args[k - 1]) + Body(sig, args, k))
          == Written(head, sig, args, k) + Body(sig, args, k);
    }
  }

  /** One encoding under way: what the buffer held, and the frame to write. */
  datatype Job = Job(before: seq<Byte>, head: seq<Byte>, sig: seq<ArgType>, args: seq<Arg>) {
    ghost predicate Valid()
    {
      TypedAll(sig, args) && |head| + |Body(sig, args, 0)| <= |before|
    }

    /** The first `k` arguments are in place and the cursor stands after them. */
    ghost predicate Reached(k: nat, pos: nat, now: seq<Byte>)
      requires Valid() && k <= |sig|
    {
      var w := Written(head, sig, args, k);
      pos == |w| && pos <= |before| && now == Splice(before, 0, w)
    }

    lemma Begin()
      requires Valid()
      ensures Reached(0, |head|, Splice(before, 0, head))
    {
    }

    lemma Room(k: nat, pos: nat, now: seq<Byte>)
      requires Valid() && k < |sig| && Reached(k, pos, now)
      ensures |now| == |before| && pos + |ArgBytes(args[k])| <= |before|
      ensures Reached(k + 1, pos + |ArgBytes(args[k])|, Splice(now, pos, ArgBytes(args[k])))
    {
      hide Splice, ArgBytes, Body;
      WrittenThenBody(head, sig, args, k + 1);
      SpliceAppend(before, 0, Written(head, sig, args, k), ArgBytes(args[k]));
    }

    /** A descriptor argument takes no bytes. */
    lemma NoBytes(k: nat, pos: nat, now: seq<Byte>)
      requires Valid() && k < |sig| && Reached(k, pos, now) && args[k].AFd?
      ensures Reached(k + 1, pos, now)
    {
    }

    lemma Done(pos: nat, now: seq<Byte>)
      requires Valid() && Reached(|sig|, pos, now)
      ensures now == Splice(before, 0, head + Body(sig, args, 0))
    {
      WrittenThenBody(head, sig, args, |sig|);
    }
  }

  /** One fixed-width argument: `vitrin_raw_write_u32(out + pos, v); pos += 4`. */
  method PutWord(out: array<Byte>, pos: nat, v: U32, ghost job: Job, ghost k: nat) returns (next: nat)
    requires job.Valid() && k < |job.sig| && job.Reached(k, pos, out[..])
    requires ArgBytes(job.args[k]) == U32Bytes(v)
    modifies out
    ensures job.Reached(k + 1, next, out[..])
  {
    hide Splice, U32Bytes, Body;
    job.Room(k, pos, out[..]);
    WriteU32(out, pos, v);
    next := pos + 4;
  }

  /** One string argument: `pos += vitrin_raw_write_string(out + pos, s)`. */
  method PutString(out: array<Byte>, pos: nat, s: seq<Byte>, ghost job: Job, ghost k: nat) returns (next: nat)
    requires job.Valid() && k < |job.sig| && job.Reached(k, pos, out[..])
    requires |s| < U32_LIMIT && job.args[k] == AStr(s)
    modifies out
    ensures job.Reached(k + 1, next, out[..])
  {
    hide Splice, StringBytes, Body;
    job.Room(k, pos, out[..]);
    var n := WriteString(out, pos, s);
    next := pos + n;
  }

  function SelectionArgs(serial: U32, status: U32, mime: seq<Byte>, data: seq<Byte>): (args: seq<Arg>)
    requires |mime| < U32_LIMIT && |data| < U32_LIMIT
    ensures TypedAll(Layout(ShimSessionSelection).sig, args)
  {
    [AU32(serial), AEnum(status), AStr(mime), AStr(data)]
  }

  lemma SelectionSize(serial: U32, status: U32, mime: seq<Byte>, data: seq<Byte>)
    requires |mime| < U32_LIMIT && |data| < U32_LIMIT
    ensures var sig, args := Layout(ShimSessionSelection).sig, SelectionArgs(serial, status, mime, data);
            && !HasFd(sig)
            && (StringsFit(sig, args) <==> |mime| <= 32 && |data| <= 61440)
            && |Body(sig, args, 0)| == 4 + 4 + |StringBytes(mime)| + |StringBytes(data)|
  {
    var sig, args := Layout(ShimSessionSelection).sig, SelectionArgs(serial, status, mime, data);
    assert sig[2] == TStr(32) && sig[3] == TStr(61440);
    assert |Body(sig, args, 2)| == |StringBytes(mime)| + |StringBytes(data)|;
  }

  method SelectionEncode(serial: U32, status: U32, mime: seq<Byte>, data: seq<Byte>, objectId: U32, out: array<Byte>)
    returns (n: int)
    requires |mime| < U32_LIMIT && |data| < U32_LIMIT
    modifies out
    ensures Encodes(Encode(Layout(ShimSessionSelection), objectId, SelectionArgs(serial, status, mime, data), out.Length),
                    old(out[..]), out[..], n)
  {
    hide StringBytes, HeaderBytes, Body, StringsFit, HasFd, PadLen, U32Bytes, Splice, Job.Reached;
    SelectionSize(serial, status, mime, data);
    if |mime| > 32 {
      return ENCODE_TOO_LONG;
    }
    if |data| > 61440 {
      return ENCODE_TOO_LONG;
    }
    var size := HEADER_LEN + 4 + 4 + (4 + |mime| + PadLen(|mime|)) + (4 + |data| + PadLen(|data|));
    if size > 0xffff || size > out.Length {
      return ENCODE_OVERFLOW;
    }
    var header := Header(objectId, size, 2, 0);
    ghost var job := Job(out[..], HeaderBytes(header), Layout(ShimSessionSelection).sig,
                         SelectionArgs(serial, status, mime, data));
    WriteHeader(out, header);
    job.Begin();
    var pos := HEADER_LEN;
    pos := PutWord(out, pos, serial, job, 0);
    pos := PutWord(out, pos, status, job, 1);
    pos := PutString(out, pos, mime, job, 2);
    pos := PutString(out, pos, data, job, 3);
    job.Done(pos, out[..]);
    return size;
  }

  datatype Attach = Attach(bufferId: U32, fd: int, kind: U32, format: U32, width: U32, height: U32, stride: U32)

  function AttachArgs(msg: Attach): (args: seq<Arg>)
    ensures TypedAll(Layout(ShimSurfaceAttach).sig, args)
  {
    [AU32(msg.bufferId), AFd(msg.fd), AEnum(msg.kind), AEnum(msg.format), AU32(msg.width), AU32(msg.height),
     AU32(msg.stride)]
  }

  lemma AttachSize(msg: Attach)
    ensures var sig, args := Layout(ShimSurfaceAttach).sig, AttachArgs(msg);
            HasFd(sig) && StringsFit(sig, args) && |Body(sig, args, 0)| == 24
  {
    var sig, args := Layout(ShimSurfaceAttach).sig, AttachArgs(msg);
    assert sig[1] == TFd;
    assert |Body(sig, args, 5)| == 8;
    assert |Body(sig, args, 3)| == 16;
    assert |Body(sig, args, 1)| == 20;
  }

  method AttachEncode(msg: Attach, objectId: U32, out: array<Byte>) returns (n: int)
    modifies out
    ensures Encodes(Encode(Layout(ShimSurfaceAttach), objectId, AttachArgs(msg), out.Length), old(out[..]), out[..], n)
  {
    hide HeaderBytes, Body, StringsFit, HasFd, U32Bytes, Splice, Job.Reached;
    AttachSize(msg);
    var size := HEADER_LEN + 4 + 4 + 4 + 4 + 4 + 4;
    if size > 0xffff || size > out.Length {
      return ENCODE_OVERFLOW;
    }
    var header := Header(objectId, size, 0, 1);
    ghost var job := Job(out[..], HeaderBytes(header), Layout(ShimSurfaceAttach).sig, AttachArgs(msg));
    WriteHeader(out, header);
    job.Begin();
    var pos := HEADER_LEN;
    pos := PutWord(out, pos, msg.bufferId, job, 0);
    job.NoBytes(1, pos, out[..]);
    pos := PutWord(out, pos, msg.kind, job, 2);
    pos := PutWord(out, pos, msg.format, job, 3);
    pos := PutWord(out, pos, msg.width, job, 4);
    pos := PutWord(out, pos, msg.height, job, 5);
    pos := PutWord(out, pos, msg.stride, job, 6);
    job.Done(pos, out[..]);
    return size;
  }

  datatype Resolved = Resolved(outcome: U32, verbs: U32, persistence: U32, expiryMs: U32)

  function ResolvedArgs(msg: Resolved): (args: seq<Arg>)
    ensures TypedAll(Layout(GrantResolved).sig, args)
  {
    [AEnum(msg.outcome), ABits(msg.verbs), AEnum(msg.persistence), AU32(msg.expiryMs)]
  }

  lemma ResolvedSize(msg: Resolved)
    ensures var sig, args := Layout(GrantResolved).sig, ResolvedArgs(msg);
            !HasFd(sig) && StringsFit(sig, args) && |Body(sig, args, 0)| == 16
  {
  }

  method ResolvedEncode(msg: Resolved, objectId: U32, out: array<Byte>) returns (n: int)
    modifies out
    ensures Encodes(Encode(Layout(GrantResolved), objectId, ResolvedArgs(msg), out.Length), old(out[..]), out[..], n)
  {
    hide HeaderBytes, Body, StringsFit, HasFd, U32Bytes, Splice, Job.Reached;
    ResolvedSize(msg);
    var size := HEADER_LEN + 4 + 4 + 4 + 4;
    if size > 0xffff || size > out.Length {
      return ENCODE_OVERFLOW;
    }
    var header := Header(objectId, size, 0, 0);
    ghost var job := Job(out[..], HeaderBytes(header), Layout(GrantResolved).sig, ResolvedArgs(msg));
    WriteHeader(out, header);
    job.Begin();
    var pos := HEADER_LEN;
    pos := PutWord(out, pos, msg.outcome, job, 0);
    pos := PutWord(out, pos, msg.verbs, job, 1);
    pos := PutWord(out, pos, msg.persistence, job, 2);
    pos := PutWord(out, pos, msg.expiryMs, job, 3);
    job.Done(pos, out[..]);
    return size;
  }

  datatype PointerConstraint = PointerConstraint(serial: U32, surface: U32, kind: U32, lifetime: U32,
                                                 x: I32, y: I32, width: U32, height: U32)

  function PointerConstraintArgs(msg: PointerConstraint): (args: seq<Arg>)
    ensures TypedAll(Layout(ShimSessionPointerConstraint).sig, args)
  {
    [AU32(msg.serial), AU32(msg.surface), AEnum(msg.kind), AEnum(msg.lifetime), AI32(msg.x), AI32(msg.y),
     AU32(msg.width), AU32(msg.height)]
  }

  lemma PointerConstraintSize(msg: PointerConstraint)
    ensures var sig, args := Layout(ShimSessionPointerConstraint).sig, PointerConstraintArgs(msg);
            !HasFd(sig) && StringsFit(sig, args) && |Body(sig, args, 0)| == 32
  {
    hide U32Bytes;
    var sig, args := Layout(ShimSessionPointerConstraint).sig, PointerConstraintArgs(msg);
    assert |Body(sig, args, 6)| == 8;
    assert |Body(sig, args, 4)| == 16;
    assert |Body(sig, args, 2)| == 24;
  }

  method PointerConstraintEncode(msg: PointerConstraint, objectId: U32, out: array<Byte>) returns (n: int)
    modifies out
    ensures Encodes(Encode(Layout(ShimSessionPointerConstraint), objectId, PointerConstraintArgs(msg), out.Length),
                    old(out[..]), out[..], n)
  {
    hide HeaderBytes, Body, StringsFit, HasFd, U32Bytes, Splice, Job.Reached;
    PointerConstraintSize(msg);
    var size := HEADER_LEN + 4 + 4 + 4 + 4 + 4 + 4 + 4 + 4;
    if size > 0xffff || size > out.Length {
      return ENCODE_OVERFLOW;
    }
    var header := Header(objectId, size, 3, 0);
    ghost var job := Job(out[..], HeaderBytes(header), Layout(ShimSessionPointerConstraint).sig,
                         PointerConstraintArgs(msg));
    WriteHeader(out, header);
    job.Begin();
    var pos := HEADER_LEN;
    pos := PutWord(out, pos, msg.serial, job, 0);
    pos := PutWord(out, pos, msg.surface, job, 1);
    pos := PutWord(out, pos, msg.kind, job, 2);
    pos := PutWord(out, pos, msg.lifetime, job, 3);
    pos := PutWord(out, pos, ToUnsigned(msg.x), job, 4);
    pos := PutWord(out, pos, ToUnsigned(msg.y), job, 5);
    pos := PutWord(out, pos, msg.width, job, 6);
    pos := PutWord(out, pos, msg.height, job, 7);
    job.Done(pos, out[..]);
    return size;
  }

  // ---- decoders ------------------------------------------------------------

  /** The gates every decoder tests before its first argument. */
  method OpenFrame(name: Name, input: seq<Byte>, fd: int) returns (r: Result<Header, Status>)
    ensures var m := Layout(name);
            Decode(m, input, fd) == match r
                                    case Err(e) => Err(e)
                                    case Ok(h) => Arguments(name, h.objectId, input, fd)
  {
    hide HasFd, Layout, ReadArgs;
    var m := Layout(name);
    if (fd >= 0) != HasFd(m.sig) {
      return Err(FdMismatch);
    }
    if |input| < HEADER_LEN {
      return Err(Truncated);
    }
    var h := ParseHeader(input);
    if h.opcode != m.opcode {
      return Err(OpcodeMismatch);
    }
    if h.size != |input| {
      return Err(SizeMismatch);
    }
    if h.fdCount != FdCount(m.sig) {
      return Err(FdMismatch);
    }
    return Ok(h);
  }

  /** What remains once the gates are open. */
  function Arguments(name: Name, objectId: U32, input: seq<Byte>, fd: int): Result<Decoded, Status>
  {
    match ReadArgs(Layout(name).sig, 0, [], input, HEADER_LEN, fd)
    case Err(e) => Err(e)
    case Ok(args) => Ok(Decoded(objectId, args))
  }

  /** An argument that reads well moves the decoder on by one. */
  lemma NextArg(sig: seq<ArgType>, i: nat, done: seq<Arg>, input: seq<Byte>, pos: nat, fd: int, a: Arg, next: nat)
    requires i < |sig| && ReadArg(sig[i], input, pos, fd) == Ok(Read(a, next))
    ensures ReadArgs(sig, i, done, input, pos, fd) == ReadArgs(sig, i + 1, done + [a], input, next, fd)
  {
  }

  method SelectionDecode(input: seq<Byte>, fd: int) returns (r: Result<Decoded, Status>)
    ensures r == Decode(Layout(ShimSessionSelection), input, fd)
  {
    hide Decode, ReadString, U32At;
    ghost var sig := Layout(ShimSessionSelection).sig;
    var header :- OpenFrame(ShimSessionSelection, input, fd);
    var pos := HEADER_LEN;
    ghost var done: seq<Arg> := [];
    var serial :- NextWord(input, pos);
    NextArg(sig, 0, done, input, pos, fd, AU32(serial), pos + 4);
    pos, done := pos + 4, done + [AU32(serial)];
    var status :- NextWord(input, pos);
    if !(status in {0, 1, 2, 3}) {
      return Err(InvalidEnum);
    }
    NextArg(sig, 1, done, input, pos, fd, AEnum(status), pos + 4);
    pos, done := pos + 4, done + [AEnum(status)];
    var mime :- ReadStringArg(input, pos, 32);
    NextArg(sig, 2, done, input, pos, fd, mime.arg, mime.pos);
    pos, done := mime.pos, done + [mime.arg];
    var data :- ReadStringArg(input, pos, 61440);
    NextArg(sig, 3, done, input, pos, fd, data.arg, data.pos);
    pos, done := data.pos, done + [data.arg];
    if pos != |input| {
      return Err(TrailingBytes);
    }
    assert done == [AU32(serial), AEnum(status), mime.arg, data.arg];
    return Ok(Decoded(header.objectId, [AU32(serial), AEnum(status), mime.arg, data.arg]));
  }

  method AttachDecode(input: seq<Byte>, fd: int) returns (r: Result<Decoded, Status>)
    ensures r == Decode(Layout(ShimSurfaceAttach), input, fd)
  {
    hide Decode, ReadString, U32At;
    ghost var sig := Layout(ShimSurfaceAttach).sig;
    var header :- OpenFrame(ShimSurfaceAttach, input, fd);
    var pos := HEADER_LEN;
    ghost var done: seq<Arg> := [];
    var bufferId :- NextWord(input, pos);
    NextArg(sig, 0, done, input, pos, fd, AU32(bufferId), pos + 4);
    pos, done := pos + 4, done + [AU32(bufferId)];
    NextArg(sig, 1, done, input, pos, fd, AFd(fd), pos);
    done := done + [AFd(fd)];
    var kind :- NextWord(input, pos);
    if !(kind in {0, 1}) {
      return Err(InvalidEnum);
    }
    NextArg(sig, 2, done, input, pos, fd, AEnum(kind), pos + 4);
    pos, done := pos + 4, done + [AEnum(kind)];
    var format :- NextWord(input, pos);
    if !(format in {0x34325258, 0x34325241}) {
      return Err(InvalidEnum);
    }
    NextArg(sig, 3, done, input, pos, fd, AEnum(format), pos + 4);
    pos, done := pos + 4, done + [AEnum(format)];
    var width :- NextWord(input, pos);
    NextArg(sig, 4, done, input, pos, fd, AU32(width), pos + 4);
    pos, done := pos + 4, done + [AU32(width)];
    var height :- NextWord(input, pos);
    NextArg(sig, 5, done, input, pos, fd, AU32(height), pos + 4);
    pos, done := pos + 4, done + [AU32(height)];
    var stride :- NextWord(input, pos);
    NextArg(sig, 6, done, input, pos, fd, AU32(stride), pos + 4);
    pos, done := pos + 4, done + [AU32(stride)];
    if pos != |input| {
      return Err(TrailingBytes);
    }
    var msg := Attach(bufferId, fd, kind, format, width, height, stride);
    assert done == AttachArgs(msg);
    return Ok(Decoded(header.objectId, AttachArgs(msg)));
  }

  method ResolvedDecode(input: seq<Byte>, fd: int) returns (r: Result<Decoded, Status>)
    ensures r == Decode(Layout(GrantResolved), input, fd)
  {
    hide Decode, ReadString, U32At, BitsValid;
    ghost var sig := Layout(GrantResolved).sig;
    var header :- OpenFrame(GrantResolved, input, fd);
    var pos := HEADER_LEN;
    ghost var done: seq<Arg> := [];
    var outcome :- NextWord(input, pos);
    if !(outcome in {0, 1, 2, 3, 4, 5, 6}) {
      return Err(InvalidEnum);
    }
    NextArg(sig, 0, done, input, pos, fd, AEnum(outcome), pos + 4);
    pos, done := pos + 4, done + [AEnum(outcome)];
    var verbs :- NextWord(input, pos);
    if !(BitsValid(verbs, GRANT_VERBS)) {
      return Err(InvalidBitfield);
    }
    NextArg(sig, 1, done, input, pos, fd, ABits(verbs), pos + 4);
    pos, done := pos + 4, done + [ABits(verbs)];
    var persistence :- NextWord(input, pos);
    if !(persistence in {0, 1, 2, 3}) {
      return Err(InvalidEnum);
    }
    NextArg(sig, 2, done, input, pos, fd, AEnum(persistence), pos + 4);
    pos, done := pos + 4, done + [AEnum(persistence)];
    var expiryMs :- NextWord(input, pos);
    NextArg(sig, 3, done, input, pos, fd, AU32(expiryMs), pos + 4);
    pos, done := pos + 4, done + [AU32(expiryMs)];
    if pos != |input| {
      return Err(TrailingBytes);
    }
    var msg := Resolved(outcome, verbs, persistence, expiryMs);
    assert done == ResolvedArgs(msg);
    return Ok(Decoded(header.objectId, ResolvedArgs(msg)));
  }
}
