/** The clipboard's UTF-8 validator against two independent readings of the
  * standard: the encoding of scalar values in section 3 of RFC 3629 and the
  * byte grammar of its section 4, both without U+0000. */
module Utf8 {
  import opened Bytes
  import opened Bits
  import opened Options

  // ---- section 3: encoding a scalar value --------------------------------

  predicate Scalar(c: int)
  {
    0 <= c <= 0x10FFFF && !(0xD800 <= c <= 0xDFFF)
  }

  function EncodeOne(c: int): (bs: seq<Byte>)
    requires Scalar(c)
    ensures 1 <= |bs| <= 4
  {
    if c < 0x80 then [c]
    else if c < 0x800 then [0xC0 + c / 0x40, 0x80 + c % 0x40]
    else if c < 0x10000 then [0xE0 + c / 0x1000, 0x80 + c / 0x40 % 0x40, 0x80 + c % 0x40]
    else [0xF0 + c / 0x40000, 0x80 + c / 0x1000 % 0x40, 0x80 + c / 0x40 % 0x40, 0x80 + c % 0x40]
  }

  predicate Scalars(cs: seq<int>)
  {
    forall c | c in cs :: Scalar(c)
  }

  function Encode(cs: seq<int>): (bs: seq<Byte>)
    requires Scalars(cs)
  {
    if cs == [] then [] else EncodeOne(cs[0]) + Encode(cs[1..])
  }

  // ---- section 4: the byte grammar -----------------------------------------

  predicate Tail(b: Byte)
  {
    0x80 <= b <= 0xBF
  }

  /** `UTF8-char` */
  predicate GrammarChar(s: seq<Byte>)
  {
    || (|s| == 1 && s[0] <= 0x7F)
    || (|s| == 2 && 0xC2 <= s[0] <= 0xDF && Tail(s[1]))
    || (|s| == 3 && Tail(s[1]) && Tail(s[2]) && 0xE0 <= s[0] <= 0xEF
        && (s[0] == 0xE0 ==> s[1] >= 0xA0) && (s[0] == 0xED ==> s[1] <= 0x9F))
    || (|s| == 4 && Tail(s[1]) && Tail(s[2]) && Tail(s[3]) && 0xF0 <= s[0] <= 0xF4
        && (s[0] == 0xF0 ==> s[1] >= 0x90) && (s[0] == 0xF4 ==> s[1] <= 0x8F))
  }

  /** `UTF8-octets` */
  ghost predicate Grammar(s: seq<Byte>)
    decreases |s|
  {
    s == [] || exists n | 1 <= n <= |s| :: GrammarChar(s[..n]) && Grammar(s[n..])
  }

  // ---- one turn of the scan --------------------------------------------------

  datatype Step = Step(cp: nat, len: nat)

  /** The lead byte's length and payload, or nothing for a stray byte. */
  function Lead(b: Byte): (r: Option<Step>)
  {
    if b < 0x80 then Some(Step(b, 1))
    else if 0xC0 <= b < 0xE0 then Some(Step(b - 0xC0, 2))
    else if 0xE0 <= b < 0xF0 then Some(Step(b - 0xE0, 3))
    else if 0xF0 <= b < 0xF8 then Some(Step(b - 0xF0, 4))
    else None
  }

  /** Fold continuation bytes `1..n` of `s` into `cp`. */
  function Fold(s: seq<Byte>, cp: nat, n: nat): (r: Option<nat>)
    requires n < |s|
  {
    if n == 0 then Some(cp)
    else
      match Fold(s, cp, n - 1)
      case None => None
      case Some(high) => if Tail(s[n]) then Some(high * 0x40 + (s[n] - 0x80)) else None
  }

  function Lowest(extra: nat): nat
    requires extra <= 3
  {
    if extra == 0 then 0 else if extra == 1 then 0x80 else if extra == 2 then 0x800 else 0x10000
  }

  /** The character at the front of `s`, as the validator judges it. */
  function ScanOne(s: seq<Byte>): (r: Option<Step>)
    requires s != []
    ensures r.Some? ==> 1 <= r.value.len <= |s|
  {
    if s[0] == 0 then None
    else
      match Lead(s[0])
      case None => None
      case Some(Step(base, len)) =>
        if len > |s| then None
        else
          match Fold(s, base, len - 1)
          case None => None
          case Some(cp) => if len > 1 && (cp < Lowest(len - 1) || !Scalar(cp)) then None else Some(Step(cp, len))
  }

  function Scan(s: seq<Byte>): (r: Option<seq<int>>)
    decreases |s|
  {
    if s == [] then Some([])
    else
      match ScanOne(s)
      case None => None
      case Some(Step(cp, len)) =>
        match Scan(s[len..])
        case None => None
        case Some(rest) => Some([cp] + rest)
  }

  // ---- base-64 digits ----------------------------------------------------------

  lemma Digit(high: nat, low: nat)
    requires low < 0x40
    ensures (high * 0x40 + low) / 0x40 == high && (high * 0x40 + low) % 0x40 == low
  {
  }

  lemma Divided(c: nat)
    ensures c / 0x1000 == c / 0x40 / 0x40 && c / 0x40000 == c / 0x40 / 0x40 / 0x40
    ensures c == c / 0x40 * 0x40 + c % 0x40
  {
  }

  lemma FoldTwo(s: seq<Byte>, base: nat)
    requires |s| >= 2
    ensures Fold(s, base, 1) == if Tail(s[1]) then Some(base * 0x40 + (s[1] - 0x80)) else None
  {
  }

  lemma FoldThree(s: seq<Byte>, base: nat)
    requires |s| >= 3
    ensures Fold(s, base, 2)
         == if Tail(s[1]) && Tail(s[2]) then Some((base * 0x40 + (s[1] - 0x80)) * 0x40 + (s[2] - 0x80)) else None
  {
    FoldTwo(s, base);
  }

  lemma FoldFour(s: seq<Byte>, base: nat)
    requires |s| >= 4
    ensures Fold(s, base, 3) == if Tail(s[1]) && Tail(s[2]) && Tail(s[3])
                                then Some(((base * 0x40 + (s[1] - 0x80)) * 0x40 + (s[2] - 0x80)) * 0x40 + (s[3] - 0x80))
                                else None
  {
    FoldThree(s, base);
  }

  // ---- one character, both ways ------------------------------------------------

  lemma EncodeTwo(base: nat, y: nat)
    requires y < 0x40
    requires var c := base * 0x40 + y; 0x80 <= c < 0x800
    ensures EncodeOne(base * 0x40 + y) == [0xC0 + base, 0x80 + y]
  {
  }

  lemma EncodeThree(base: nat, y: nat, z: nat)
    requires y < 0x40 && z < 0x40
    requires var c := (base * 0x40 + y) * 0x40 + z; Scalar(c) && 0x800 <= c < 0x10000
    ensures EncodeOne((base * 0x40 + y) * 0x40 + z) == [0xE0 + base, 0x80 + y, 0x80 + z]
  {
    Digit(base * 0x40 + y, z);
    Digit(base, y);
    Divided((base * 0x40 + y) * 0x40 + z);
  }

  lemma EncodeFour(base: nat, x: nat, y: nat, z: nat)
    requires x < 0x40 && y < 0x40 && z < 0x40
    requires var c := ((base * 0x40 + x) * 0x40 + y) * 0x40 + z; Scalar(c) && 0x10000 <= c
    ensures EncodeOne(((base * 0x40 + x) * 0x40 + y) * 0x40 + z) == [0xF0 + base, 0x80 + x, 0x80 + y, 0x80 + z]
  {
    Digit((base * 0x40 + x) * 0x40 + y, z);
    Digit(base * 0x40 + x, y);
    Digit(base, x);
    Divided(((base * 0x40 + x) * 0x40 + y) * 0x40 + z);
  }

  /** What one scan accepts is the encoding of the scalar it found. */
  lemma ScanThenEncode(s: seq<Byte>)
    requires s != [] && ScanOne(s).Some?
    ensures var Step(cp, len) := ScanOne(s).value; Scalar(cp) && cp != 0 && EncodeOne(cp) == s[..len]
  {
    hide EncodeOne;
    var Step(base, len) := Lead(s[0]).value;
    if len == 1 {
      ScanByte(s);
    } else if len == 2 {
      FoldTwo(s, base);
      EncodeTwo(base, s[1] - 0x80);
      assert s[..2] == [s[0], s[1]];
    } else if len == 3 {
      FoldThree(s, base);
      EncodeThree(base, s[1] - 0x80, s[2] - 0x80);
      assert s[..3] == [s[0], s[1], s[2]];
    } else {
      FoldFour(s, base);
      EncodeFour(base, s[1] - 0x80, s[2] - 0x80, s[3] - 0x80);
      assert s[..4] == [s[0], s[1], s[2], s[3]];
    }
  }

  lemma ScanByte(s: seq<Byte>)
    requires s != [] && 0 < s[0] < 0x80
    ensures ScanOne(s) == Some(Step(s[0], 1)) && EncodeOne(s[0]) == s[..1]
  {
  }

  /** The encoding of a scalar other than zero scans back to it, whatever follows. */
  lemma EncodeThenScan(c: int, rest: seq<Byte>)
    requires Scalar(c) && c != 0
    ensures ScanOne(EncodeOne(c) + rest) == Some(Step(c, |EncodeOne(c)|))
  {
    hide Fold;
    var s := EncodeOne(c) + rest;
    if c < 0x80 {
      ScanByte(s);
    } else if c < 0x800 {
      FoldTwo(s, c / 0x40);
    } else if c < 0x10000 {
      Divided(c);
      Divided(c / 0x40);
      FoldThree(s, c / 0x1000);
    } else {
      EncodeThenScanFour(c, rest);
    }
  }

  lemma EncodeThenScanFour(c: int, rest: seq<Byte>)
    requires Scalar(c) && c >= 0x10000
    ensures ScanOne(EncodeOne(c) + rest) == Some(Step(c, 4))
  {
    hide Fold;
    Divided(c);
    Divided(c / 0x40);
    Divided(c / 0x40 / 0x40);
    FoldFour(EncodeOne(c) + rest, c / 0x40000);
  }

  // ---- whole strings -------------------------------------------------------------

  predicate NoZero(cs: seq<int>)
  {
    0 !in cs
  }

  lemma {:induction false} ScanOfEncode(cs: seq<int>)
    requires Scalars(cs) && NoZero(cs)
    ensures Scan(Encode(cs)) == Some(cs)
  {
    if cs != [] {
      var c, rest := cs[0], Encode(cs[1..]);
      EncodeThenScan(c, rest);
      assert (EncodeOne(c) + rest)[|EncodeOne(c)|..] == rest;
      ScanOfEncode(cs[1..]);
      assert cs == [c] + cs[1..];
    }
  }

  lemma {:induction false} EncodeOfScan(s: seq<Byte>)
    requires Scan(s).Some?
    ensures var cs := Scan(s).value; Scalars(cs) && NoZero(cs) && Encode(cs) == s
    decreases |s|
  {
    hide EncodeOne, ScanOne;
    if s != [] {
      ScanThenEncode(s);
      var Step(cp, len) := ScanOne(s).value;
      EncodeOfScan(s[len..]);
      var rest := Scan(s[len..]).value;
      EncodeCons(cp, rest);
      hide Encode, Scalars, NoZero;
      assert s == s[..len] + s[len..];
    }
  }

  lemma EncodeCons(c: int, rest: seq<int>)
    requires Scalar(c) && c != 0 && Scalars(rest) && NoZero(rest)
    ensures Scalars([c] + rest) && NoZero([c] + rest) && Encode([c] + rest) == EncodeOne(c) + Encode(rest)
  {
    assert ([c] + rest)[1..] == rest;
  }

  /** A string of bytes is acceptable exactly when it is the UTF-8 encoding of
    * some scalars none of which is U+0000, and then of only one such sequence. */
  lemma ScanIffEncoding(s: seq<Byte>)
    ensures Scan(s).Some? <==> exists cs :: Scalars(cs) && NoZero(cs) && Encode(cs) == s
    ensures forall cs, ds | Scalars(cs) && NoZero(cs) && Scalars(ds) && NoZero(ds) && Encode(cs) == s == Encode(ds) :: cs == ds
  {
    if Scan(s).Some? {
      EncodeOfScan(s);
    }
    forall cs | Scalars(cs) && NoZero(cs) && Encode(cs) == s
      ensures Scan(s) == Some(cs)
    {
      ScanOfEncode(cs);
    }
  }

  lemma GrammarScans(s: seq<Byte>, n: nat)
    requires 1 <= n <= |s| && s[0] != 0
    ensures GrammarChar(s[..n]) <==> ScanOne(s).Some? && ScanOne(s).value.len == n
  {
    hide Fold;
    if s[0] < 0x80 {
      ScanByte(s);
    } else if Lead(s[0]).Some? {
      var Step(base, len) := Lead(s[0]).value;
      if len == 2 && |s| >= 2 {
        FoldTwo(s, base);
      } else if len == 3 && |s| >= 3 {
        FoldThree(s, base);
      } else if len == 4 && |s| >= 4 {
        FoldFour(s, base);
      }
    }
  }

  lemma {:induction false} GrammarThenScan(s: seq<Byte>)
    requires Grammar(s) && 0 !in s
    ensures Scan(s).Some?
    decreases |s|
  {
    if s != [] {
      hide ScanOne, GrammarChar;
      var n :| 1 <= n <= |s| && GrammarChar(s[..n]) && Grammar(s[n..]);
      GrammarScans(s, n);
      GrammarThenScan(s[n..]);
    }
  }

  lemma {:induction false} ScanThenGrammar(s: seq<Byte>)
    requires Scan(s).Some?
    ensures Grammar(s) && 0 !in s
    decreases |s|
  {
    if s != [] {
      var n := ScanOne(s).value.len;
      GrammarScans(s, n);
      CharHasNoZero(s[..n]);
      hide ScanOne, GrammarChar;
      ScanThenGrammar(s[n..]);
      assert s == s[..n] + s[n..];
    }
  }

  lemma CharHasNoZero(s: seq<Byte>)
    requires GrammarChar(s) && s[0] != 0
    ensures 0 !in s
  {
  }

  /** The same strings match the grammar of section 4 without the zero byte. */
  lemma ScanIffGrammar(s: seq<Byte>)
    ensures Scan(s).Some? <==> Grammar(s) && 0 !in s
  {
    if Scan(s).Some? {
      ScanThenGrammar(s);
    } else if Grammar(s) && 0 !in s {
      GrammarThenScan(s);
    }
  }

  // ---- the validator ---------------------------------------------------------------

  /** Masking away the low `k` bits of a byte. */
  lemma TopBits(b: Byte, k: nat, m: nat, mask: nat)
    requires k <= 8 && m + 1 == Pow2(8 - k) && mask == Pow2(k) * m
    ensures And(b, mask) == Pow2(k) * (b / Pow2(k))
  {
    hide And, Pow2;
    var p, q: nat, r := Pow2(k), b / Pow2(k), b % Pow2(k);
    assert b == p * q + r;
    AndHighMask(k, q, r, m);
    TopPart(b, k);
    AndLowMask(8 - k, q);
  }

  lemma TopPart(b: nat, k: nat)
    requires k <= 8 && b < 256
    ensures b / Pow2(k) < Pow2(8 - k)
  {
  }

  /** The masks the validator uses, as arithmetic. */
  lemma Masks(b: Byte)
    ensures And(b, 0xE0) == b / 32 * 32 && And(b, 0xF0) == b / 16 * 16
    ensures And(b, 0xF8) == b / 8 * 8 && And(b, 0xC0) == b / 64 * 64
    ensures And(b, 0x1F) == b % 32 && And(b, 0x0F) == b % 16 && And(b, 0x07) == b % 8 && And(b, 0x3F) == b % 64
  {
    assert Pow2(2) == 4 && Pow2(3) == 8 && Pow2(4) == 16;
    assert Pow2(5) == 32 && Pow2(6) == 64;
    TopBits(b, 5, 7, 0xe0);
    TopBits(b, 4, 15, 0xf0);
    TopBits(b, 3, 31, 0xf8);
    TopBits(b, 6, 3, 0xc0);
    AndIsRemainder(5, b / 32, b % 32);
    AndIsRemainder(4, b / 16, b % 16);
    AndIsRemainder(3, b / 8, b % 8);
    AndIsRemainder(6, b / 64, b % 64);
  }

  /** The lead byte's form, tested by mask. */
  method Classify(b: Byte) returns (r: Option<Step>)
    requires b >= 0x80
    ensures r == Lead(b)
  {
    hide And;
    Masks(b);
    if And(b, 0xE0) == 0xC0 {
      return Some(Step(And(b, 0x1F), 2));
    } else if And(b, 0xF0) == 0xE0 {
      return Some(Step(And(b, 0x0F), 3));
    } else if And(b, 0xF8) == 0xF0 {
      return Some(Step(And(b, 0x07), 4));
    }
    return None;
  }

  /** `clipboard_utf8_valid` */
  method Valid(bytes: seq<Byte>) returns (ok: bool)
    ensures ok <==> Scan(bytes).Some?
    ensures ok <==> exists cs :: Scalars(cs) && NoZero(cs) && Encode(cs) == bytes
    ensures ok <==> Grammar(bytes) && 0 !in bytes
  {
    hide Fold, Encode, Grammar;
    ScanIffEncoding(bytes);
    ScanIffGrammar(bytes);
    var i, len := 0, |bytes|;
    assert bytes[0..] == bytes;
    while i < len
      invariant 0 <= i <= len
      invariant Scan(bytes).Some? <==> Scan(bytes[i..]).Some?
    {
      var b := bytes[i];
      if b == 0 {
        return false;
      }
      if b < 0x80 {
        ScanByte(bytes[i..]);
        assert bytes[i..][1..] == bytes[i + 1..];
        i := i + 1;
        continue;
      }
      var lead := Classify(b);
      if lead.None? {
        return false;
      }
      var extra, cp := lead.value.len - 1, lead.value.cp;
      if extra >= len - i {
        return false;
      }
      var folded := Continue(bytes, i, extra, cp);
      if folded.None? {
        return false;
      }
      cp := folded.value;
      if cp < Lowest(extra) {
        return false;
      }
      if cp > 0x10FFFF || 0xD800 <= cp <= 0xDFFF {
        return false;
      }
      assert ScanOne(bytes[i..]) == Some(Step(cp, extra + 1));
      assert bytes[i..][extra + 1..] == bytes[i + extra + 1..];
      i := i + (extra + 1);
    }
    return true;
  }

  /** The inner loop: `extra` continuation bytes after the lead at `i`. */
  method Continue(bytes: seq<Byte>, i: nat, extra: nat, base: nat) returns (r: Option<nat>)
    requires i + extra < |bytes|
    ensures r == Fold(bytes[i..], base, extra)
  {
    hide And;
    var cp := base;
    for k := 1 to extra + 1
      invariant Fold(bytes[i..], base, k - 1) == Some(cp)
    {
      var c := bytes[i + k];
      Masks(c);
      if And(c, 0xC0) != 0x80 {
        FoldStops(bytes[i..], base, k, extra);
        return None;
      }
      cp := cp * 0x40 + And(c, 0x3F);
    }
    return Some(cp);
  }

  lemma {:induction false} FoldStops(s: seq<Byte>, base: nat, k: nat, n: nat)
    requires k <= n < |s| && Fold(s, base, k).None?
    ensures Fold(s, base, n).None?
    decreases n
  {
    if k < n {
      FoldStops(s, base, k, n - 1);
    }
  }
}
