/** The fuzz corpus: frames built by hand in another language, and the check that a
  * seed claimed to decode reaches the decoder's arguments. Both against the codec. */
module Seeds {
  import opened Bytes
  import opened Codec

  // ---- building frames ------------------------------------------------------------

  /** `pad`; the remainder is the non-negative one. */
  function Pad(n: nat): (bs: seq<Byte>)
    ensures bs == Zeros(PadLen(n))
  {
    var r := n % 4;
    assert n == 4 * (n / 4) + r;
    Zeros((0 - n) % 4)
  }

  /** `wire_string` of text already in UTF-8. */
  function WireString(s: seq<Byte>): (bs: seq<Byte>)
    requires |s| < U32_LIMIT
    ensures bs == StringBytes(s)
  {
    U32Bytes(|s|) + s + Pad(|s|)
  }

  /** `frame`; the packing raises on a size or count its field cannot hold. */
  function PackFrame(objectId: U32, opcode: nat, payload: seq<Byte>, sizeOverride: Result<nat, ()>, fdCount: nat)
    : (r: Result<seq<Byte>, ()>)
  {
    var size := if sizeOverride.Ok? then sizeOverride.value else 8 + |payload|;
    if size >= U16_LIMIT || opcode > 255 || fdCount > 255 then Err(())
    else Ok(U32Bytes(objectId) + [size % 256, size / 256] + [opcode] + [fdCount] + payload)
  }

  /** A payload written argument by argument with `u32` and `wire_string`. */
  function Payload(args: seq<Arg>): (bs: seq<Byte>)
    requires forall i | 0 <= i < |args| && args[i].AStr? :: |args[i].s| < U32_LIMIT
  {
    if args == [] then []
    else
      (match args[0]
       case AU32(v) => U32Bytes(v)
       case AI32(v) => U32Bytes(ToUnsigned(v))
       case AEnum(v) => U32Bytes(v)
       case ABits(v) => U32Bytes(v)
       case AStr(s) => WireString(s)
       case AFd(_) => []) + Payload(args[1..])
  }

  lemma PayloadStep(args: seq<Arg>)
    requires args != [] && forall i | 0 <= i < |args| && args[i].AStr? :: |args[i].s| < U32_LIMIT
    ensures Payload(args) == ArgBytes(args[0]) + Payload(args[1..])
  {
  }

  lemma {:induction false} PayloadIsBody(sig: seq<ArgType>, args: seq<Arg>, i: nat)
    requires TypedAll(sig, args) && i <= |args|
    ensures Payload(args[i..]) == Body(sig, args, i)
    decreases |args| - i
  {
    hide Payload, ArgBytes;
    if i < |args| {
      assert args[i..][1..] == args[i + 1..];
      PayloadIsBody(sig, args, i + 1);
      PayloadStep(args[i..]);
    } else {
      PayloadEmpty();
      assert args[i..] == [];
    }
  }

  lemma PayloadEmpty()
    ensures Payload([]) == []
  {
  }

  /** The hand-built frame of a message is, byte for byte, the encoder's. */
  lemma FrameIsEncoding(m: Message, objectId: U32, args: seq<Arg>, capacity: nat)
    requires TypedAll(m.sig, args) && Encode(m, objectId, args, capacity).Ok?
    ensures PackFrame(objectId, m.opcode, Payload(args), Err(()), FdCount(m.sig)).Ok?
    ensures PackFrame(objectId, m.opcode, Payload(args), Err(()), FdCount(m.sig)).value
         == Encode(m, objectId, args, capacity).value
  {
    PayloadIsBody(m.sig, args, 0);
    assert args[0..] == args;
  }

  // ---- checking seeds ---------------------------------------------------------------

  /** A message as the interface description names it. */
  datatype Known = Known(name: string, message: Message)

  datatype Claim = Claim(selector: int, name: string, decodes: bool)

  datatype Seed = Seed(name: string, data: seq<Byte>)

  datatype Rot =
    | Duplicate | Unclaimed | TooShort | WrongSelector | WrongMessage
    | FdFlag | NoHeader | WrongOpcode | WrongSize | WrongFdCount

  /** The gates the checker tests on the frame of a seed claimed to decode. */
  predicate Gates(m: Message, wantFd: bool, body: seq<Byte>)
  {
    && wantFd == HasFd(m.sig)
    && |body| >= HEADER_LEN
    && var h := ParseHeader(body);
       h.opcode == m.opcode && h.size == |body| && h.fdCount == FdCount(m.sig)
  }

  predicate Honest(known: seq<Known>, claim: Claim, data: seq<Byte>)
    requires known != []
  {
    && |data| >= 2 && data[0] % |known| == claim.selector
    && var msg := known[claim.selector];
       msg.name == claim.name && (claim.decodes ==> Gates(msg.message, data[1] % 2 == 1, data[2..]))
  }

  /** The body of the loop of `verify_protocol_decode_seeds`. */
  method CheckSeed(known: seq<Known>, claim: Claim, data: seq<Byte>) returns (r: Result<(), Rot>)
    requires known != []
    ensures r.Ok? <==> Honest(known, claim, data)
  {
    if |data| < 2 {
      return Err(TooShort);
    }
    if data[0] % |known| != claim.selector {
      return Err(WrongSelector);
    }
    var msg := known[claim.selector];
    if msg.name != claim.name {
      return Err(WrongMessage);
    }
    var wantFd, body := data[1] % 2 == 1, data[2..];
    if !claim.decodes {
      return Ok(());
    }
    var m := msg.message;
    if wantFd != HasFd(m.sig) {
      return Err(FdFlag);
    }
    if |body| < HEADER_LEN {
      return Err(NoHeader);
    }
    var h := ParseHeader(body);
    if h.opcode != m.opcode {
      return Err(WrongOpcode);
    }
    if h.size != |body| {
      return Err(WrongSize);
    }
    if h.fdCount != FdCount(m.sig) {
      return Err(WrongFdCount);
    }
    return Ok(());
  }

  ghost predicate Distinct(seeds: seq<Seed>)
  {
    forall i, j | 0 <= i < j < |seeds| :: seeds[i].data != seeds[j].data
  }

  /** `verify_protocol_decode_seeds`: passes exactly the corpora whose seeds all differ,
    * are all claimed, and keep their claims. */
  method Verify(known: seq<Known>, claims: map<string, Claim>, seeds: seq<Seed>) returns (r: Result<(), Rot>)
    requires known != []
    ensures r.Ok? <==> && Distinct(seeds)
                       && (set i | 0 <= i < |seeds| :: seeds[i].name) == claims.Keys
                       && forall i | 0 <= i < |seeds| :: Kept(known, claims, seeds[i])
  {
    var seen: map<seq<Byte>, string> := map[];
    for i := 0 to |seeds|
      invariant Distinct(seeds[..i]) && seen.Keys == set j | 0 <= j < i :: seeds[j].data
    {
      if seeds[i].data in seen {
        return Err(Duplicate);
      }
      seen := seen[seeds[i].data := seeds[i].name];
      assert forall j | 0 <= j < i :: seeds[..i + 1][j] == seeds[..i][j];
    }
    assert seeds[..|seeds|] == seeds;
    var names := set i | 0 <= i < |seeds| :: seeds[i].name;
    if names != claims.Keys {
      return Err(Unclaimed);
    }
    for i := 0 to |seeds|
      invariant forall j | 0 <= j < i :: Kept(known, claims, seeds[j])
    {
      assert seeds[i].name in names;
      var one := CheckSeed(known, claims[seeds[i].name], seeds[i].data);
      if one.Err? {
        return one;
      }
    }
    return Ok(());
  }

  predicate Kept(known: seq<Known>, claims: map<string, Claim>, seed: Seed)
    requires known != []
  {
    seed.name in claims && Honest(known, claims[seed.name], seed.data)
  }

  // ---- the gates are the decoder's ---------------------------------------------------

  predicate GateError(e: Status)
  {
    e == FdMismatch || e == OpcodeMismatch || e == SizeMismatch
  }

  /** Reading arguments never raises a gate's error. */
  lemma {:induction false} ArgumentErrors(sig: seq<ArgType>, i: nat, done: seq<Arg>, bs: seq<Byte>, pos: nat, fd: int)
    requires i <= |sig|
    ensures var r := ReadArgs(sig, i, done, bs, pos, fd); r.Err? ==> !GateError(r.error)
    decreases |sig| - i
  {
    if i < |sig| && ReadArg(sig[i], bs, pos, fd).Ok? {
      var Read(a, next) := ReadArg(sig[i], bs, pos, fd).value;
      ArgumentErrors(sig, i + 1, done + [a], bs, next, fd);
    }
  }

  /** The checker is exact about the gates: it passes a seed claimed to decode precisely
    * when the decoder has a whole header to read and stops at none of them. */
  lemma GatesAreTheDecoders(m: Message, fd: int, body: seq<Byte>)
    ensures Gates(m, fd >= 0, body)
       <==> |body| >= HEADER_LEN && (Decode(m, body, fd).Err? ==> !GateError(Decode(m, body, fd).error))
  {
    ArgumentErrors(m.sig, 0, [], body, HEADER_LEN, fd);
  }

  /** So nothing that decodes is refused, and what passes fails only in its arguments. */
  lemma DecodableSeedsPass(known: seq<Known>, claim: Claim, data: seq<Byte>, fd: int)
    requires known != [] && |data| >= 2 && data[0] % |known| == claim.selector
    requires known[claim.selector].name == claim.name && (fd >= 0) == (data[1] % 2 == 1)
    requires Decode(known[claim.selector].message, data[2..], fd).Ok?
    ensures Honest(known, claim, data)
  {
  }

  /** A seed built from well-formed arguments passes and decodes to them. */
  lemma BuiltSeedsDecode(m: Message, objectId: U32, args: seq<Arg>, capacity: nat, fd: int)
    requires TypedAll(m.sig, args) && FdsAre(m.sig, args, fd) && (fd >= 0) == HasFd(m.sig)
    requires Encode(m, objectId, args, capacity).Ok? && FirstComplaint(m.sig, args, 0).Ok?
    ensures var built := PackFrame(objectId, m.opcode, Payload(args), Err(()), FdCount(m.sig));
            built.Ok? && Gates(m, fd >= 0, built.value) && Decode(m, built.value, fd) == Ok(Decoded(objectId, args))
  {
    hide Encode, Decode;
    FrameIsEncoding(m, objectId, args, capacity);
    DecodeOfEncode(m, objectId, args, capacity, fd);
    var bs := Encode(m, objectId, args, capacity).value;
    DecodedIsWhole(m, bs, fd);
    GatesAreTheDecoders(m, fd, bs);
  }

  lemma DecodedIsWhole(m: Message, bs: seq<Byte>, fd: int)
    requires Decode(m, bs, fd).Ok?
    ensures |bs| >= HEADER_LEN
  {
  }
}
