/** The demo's task record and its receipt: which `K=V` specifications are accepted, the
  * canonical text that stands for the record, and the three band colours drawn from it. */
module Receipt {
  import opened Bytes
  import opened Options
  import opened Pixels
  import opened BandScan
  import Bits
  import Hash
  import Utf8

  /** Text as its code points, as the demo's strings are. */
  type Text = seq<int>

  const EQUALS := 0x3D
  const NEWLINE := 0x0A
  const MAX_TEXT_BYTES := 4096
  const FIELD_COUNT := 2
  const MIN_BAND_ROWS := 24

  datatype Pair = Pair(key: Text, value: Text)

  datatype TaskError = NotKeyValue | ControlCharacter | Unencodable | TooLong | WrongCount

  datatype Parsed<+T> = Accepted(value: T) | Refused(error: TaskError)

  // ---- one specification --------------------------------------------------------------

  predicate Control(c: int)
  {
    c < 0x20 || c == 0x7F || 0x80 <= c <= 0x9F
  }

  predicate Plain(t: Text)
  {
    forall i | 0 <= i < |t| :: !Control(t[i])
  }

  predicate WellFormed(p: Pair)
  {
    && p.key != [] && EQUALS !in p.key && Plain(p.key) && Plain(p.value)
    && Utf8.Scalars(p.value) && |Utf8.Encode(p.value)| <= MAX_TEXT_BYTES
  }

  function Spell(p: Pair): Text
  {
    p.key + [EQUALS] + p.value
  }

  function IndexOf(t: Text, c: int): (i: nat)
    ensures i <= |t| && c !in t[..i] && (i < |t| ==> t[i] == c)
  {
    if t == [] || t[0] == c then 0
    else
      var i := 1 + IndexOf(t[1..], c);
      assert t[..i] == [t[0]] + t[1..][..i - 1];
      i
  }

  /** The body of the loop of `parse_task`. */
  function ParseSpec(spec: Text): (r: Parsed<Pair>)
    ensures r.Accepted? ==> WellFormed(r.value) && Spell(r.value) == spec
  {
    var i := IndexOf(spec, EQUALS);
    if i == |spec| || i == 0 then Refused(NotKeyValue)
    else
      var key, value := spec[..i], spec[i + 1..];
      if !Plain(key) || !Plain(value) then Refused(ControlCharacter)
      else if !Utf8.Scalars(value) then Refused(Unencodable)
      else if |Utf8.Encode(value)| > MAX_TEXT_BYTES then Refused(TooLong)
      else Accepted(Pair(key, value))
  }

  /** A specification is accepted exactly when it spells a well-formed pair, and then it
    * yields that pair. */
  lemma SpecIffSpelling(spec: Text, p: Pair)
    ensures ParseSpec(spec) == Accepted(p) <==> WellFormed(p) && Spell(p) == spec
  {
    if WellFormed(p) && Spell(p) == spec {
      FirstSeparator(p.key, EQUALS, p.value);
      assert spec[..|p.key|] == p.key && spec[|p.key| + 1..] == p.value;
    }
  }

  /** A character that can be typed into a field: not a control character of any kind. */
  predicate Typable(c: int)
  {
    0x20 <= c < 0x7F || c > 0x9F
  }

  /** What is accepted, in the terms of the protocol: a key without an equals sign, and
    * typable text of at most 4096 bytes for a value. */
  lemma WellFormedIff(p: Pair)
    ensures WellFormed(p)
       <==> && p.key != [] && (forall i | 0 <= i < |p.key| :: Typable(p.key[i]) && p.key[i] != '=' as int)
            && (forall i | 0 <= i < |p.value| :: Typable(p.value[i]))
            && Utf8.Scalars(p.value) && |Utf8.Encode(p.value)| <= 4096
  {
  }

  /** Which fault is complained of first. */
  lemma SpecFaults(head: Text, tail: Text)
    requires EQUALS !in head
    ensures ParseSpec(head) == Refused(NotKeyValue) && ParseSpec([EQUALS] + tail) == Refused(NotKeyValue)
    ensures head != [] ==>
              var spec := head + [EQUALS] + tail;
              && (!Plain(head) || !Plain(tail) ==> ParseSpec(spec) == Refused(ControlCharacter))
              && (Plain(head) && Plain(tail) && !Utf8.Scalars(tail) ==> ParseSpec(spec) == Refused(Unencodable))
              && (Plain(head) && Plain(tail) && Utf8.Scalars(tail) && |Utf8.Encode(tail)| > MAX_TEXT_BYTES ==>
                    ParseSpec(spec) == Refused(TooLong))
  {
    FirstSeparator(head, EQUALS, tail);
    FirstSeparator([], EQUALS, tail);
    assert [] + [EQUALS] + tail == [EQUALS] + tail;
    var spec := head + [EQUALS] + tail;
    assert spec[..|head|] == head && spec[|head| + 1..] == tail;
    assert IndexOf(head, EQUALS) == |head| by {
      NoSeparator(head, EQUALS);
    }
  }

  lemma NoSeparator(t: Text, c: int)
    requires c !in t
    ensures IndexOf(t, c) == |t|
  {
  }

  lemma {:induction false} FirstSeparator(head: Text, c: int, tail: Text)
    requires c !in head
    ensures IndexOf(head + [c] + tail, c) == |head|
  {
    if head != [] {
      assert (head + [c] + tail)[1..] == head[1..] + [c] + tail;
      FirstSeparator(head[1..], c, tail);
    }
  }

  // ---- the whole task --------------------------------------------------------------------

  function Codes(s: string): Text
  {
    seq(|s|, i requires 0 <= i < |s| => s[i] as int)
  }

  function DefaultTask(): seq<Pair>
  {
    [Pair(Codes("name"), Codes("Ada Lovelace")), Pair(Codes("email"), Codes("ada@example.org"))]
  }

  predicate Printable(s: string)
  {
    forall i | 0 <= i < |s| :: ' ' <= s[i] <= '~'
  }

  lemma {:induction false} PrintableFits(s: string)
    requires Printable(s)
    ensures Plain(Codes(s)) && Utf8.Scalars(Codes(s)) && |Utf8.Encode(Codes(s))| == |s|
  {
    if s != [] {
      PrintableFits(s[1..]);
      assert Codes(s)[1..] == Codes(s[1..]);
      assert Codes(s) == [Codes(s)[0]] + Codes(s[1..]);
    }
  }

  lemma DefaultPair(key: string, value: string)
    requires key != "" && '=' !in key && Printable(key) && Printable(value) && |value| <= MAX_TEXT_BYTES
    ensures WellFormed(Pair(Codes(key), Codes(value)))
  {
    PrintableFits(key);
    PrintableFits(value);
  }

  lemma DefaultIsWellFormed()
    ensures AllWellFormed(DefaultTask())
  {
    hide Codes, WellFormed;
    FirstDefault();
    SecondDefault();
  }

  lemma FirstDefault()
    ensures WellFormed(Pair(Codes("name"), Codes("Ada Lovelace")))
  {
    hide Codes, WellFormed;
    DefaultPair("name", "Ada Lovelace");
  }

  lemma SecondDefault()
    ensures WellFormed(Pair(Codes("email"), Codes("ada@example.org")))
  {
    hide Codes, WellFormed;
    DefaultPair("email", "ada@example.org");
  }

  /** `parse_task`: the pairs are the specifications, read in order; the first bad one, or
    * else their number, is what is complained of. */
  method ParseTask(specs: seq<Text>) returns (r: Parsed<seq<Pair>>)
    ensures specs == [] ==> r == Accepted(DefaultTask())
    ensures specs != [] ==> (r.Accepted? <==> |specs| == FIELD_COUNT && forall i | 0 <= i < |specs| :: ParseSpec(specs[i]).Accepted?)
    ensures specs != [] && r.Accepted? ==> Spellings(r.value) == specs
    ensures r.Accepted? ==> AllWellFormed(r.value)
    ensures r.Refused? && r.error != WrongCount ==>
              exists i :: 0 <= i < |specs| && ParseSpec(specs[i]) == Refused(r.error)
                       && forall j | 0 <= j < i :: ParseSpec(specs[j]).Accepted?
    ensures r == Refused(WrongCount) ==> forall i | 0 <= i < |specs| :: ParseSpec(specs[i]).Accepted?
  {
    if specs == [] {
      DefaultIsWellFormed();
      return Accepted(DefaultTask());
    }
    hide ParseSpec, Spell, WellFormed;
    var pairs: seq<Pair> := [];
    for i := 0 to |specs|
      invariant |pairs| == i && AllWellFormed(pairs) && Spellings(pairs) == specs[..i]
      invariant forall j | 0 <= j < i :: ParseSpec(specs[j]).Accepted?
    {
      var one := ParseSpec(specs[i]);
      if one.Refused? {
        NotAboutNumber(specs[i]);
        return Refused(one.error);
      }
      pairs := pairs + [one.value];
      assert specs[..i + 1] == specs[..i] + [specs[i]];
    }
    assert specs[..|specs|] == specs;
    if |pairs| != FIELD_COUNT {
      return Refused(WrongCount);
    }
    return Accepted(pairs);
  }

  lemma NotAboutNumber(spec: Text)
    ensures ParseSpec(spec) != Refused(WrongCount)
  {
  }

  predicate AllWellFormed(task: seq<Pair>)
  {
    forall i | 0 <= i < |task| :: WellFormed(task[i])
  }

  function Spellings(task: seq<Pair>): (lines: seq<Text>)
    ensures |lines| == |task|
  {
    seq(|task|, i requires 0 <= i < |task| => Spell(task[i]))
  }

  function JoinLines(lines: seq<Text>): Text
  {
    if lines == [] then [] else if |lines| == 1 then lines[0] else lines[0] + [NEWLINE] + JoinLines(lines[1..])
  }

  /** `canonical_task` */
  function Canonical(task: seq<Pair>): Text
  {
    JoinLines(Spellings(task))
  }

  // ---- the canonical text stands for the record ---------------------------------------------

  function SplitLines(t: Text): (lines: seq<Text>)
    decreases |t|
  {
    var i := IndexOf(t, NEWLINE);
    if i == |t| then [t] else [t[..i]] + SplitLines(t[i + 1..])
  }

  lemma {:induction false} SplitOfJoin(lines: seq<Text>)
    requires lines != [] && forall i | 0 <= i < |lines| :: NEWLINE !in lines[i]
    ensures SplitLines(JoinLines(lines)) == lines
  {
    var t := JoinLines(lines);
    if |lines| == 1 {
      assert IndexOf(t, NEWLINE) == |t|;
    } else {
      FirstSeparator(lines[0], NEWLINE, JoinLines(lines[1..]));
      assert t[..|lines[0]|] == lines[0] && t[|lines[0]| + 1..] == JoinLines(lines[1..]);
      SplitOfJoin(lines[1..]);
    }
  }

  lemma SpellingHasNoNewline(p: Pair)
    requires WellFormed(p)
    ensures NEWLINE !in Spell(p)
  {
  }

  /** Reading a text back as a record. */
  function Uncanonical(t: Text): (r: seq<Parsed<Pair>>)
  {
    var lines := SplitLines(t);
    seq(|lines|, i requires 0 <= i < |lines| => ParseSpec(lines[i]))
  }

  /** The canonical text of a record gives the record back, pair by pair and in order. */
  lemma CanonicalRoundTrip(task: seq<Pair>)
    requires task != [] && AllWellFormed(task)
    ensures Uncanonical(Canonical(task)) == seq(|task|, i requires 0 <= i < |task| => Accepted(task[i]))
  {
    forall i | 0 <= i < |task| ensures NEWLINE !in Spellings(task)[i] {
      SpellingHasNoNewline(task[i]);
    }
    SplitOfJoin(Spellings(task));
    forall i | 0 <= i < |task| ensures ParseSpec(Spellings(task)[i]) == Accepted(task[i]) {
      SpecIffSpelling(Spell(task[i]), task[i]);
    }
  }

  /** Two records with the same canonical bytes are the same record. */
  lemma CanonicalInjective(task: seq<Pair>, other: seq<Pair>)
    requires task != [] && other != [] && AllWellFormed(task) && AllWellFormed(other)
    requires Utf8.Scalars(Canonical(task)) && Utf8.Scalars(Canonical(other))
    requires Utf8.Encode(Canonical(task)) == Utf8.Encode(Canonical(other))
    ensures task == other
  {
    NoZeroInside(task);
    NoZeroInside(other);
    Utf8.ScanOfEncode(Canonical(task));
    Utf8.ScanOfEncode(Canonical(other));
    CanonicalRoundTrip(task);
    CanonicalRoundTrip(other);
    var a := seq(|task|, i requires 0 <= i < |task| => Accepted(task[i]));
    var b := seq(|other|, i requires 0 <= i < |other| => Accepted(other[i]));
    assert a == b;
    assert |task| == |a| && |other| == |b|;
    forall i | 0 <= i < |task| ensures task[i] == other[i] {
      assert a[i] == b[i];
    }
  }

  lemma {:induction false} JoinHasNoZero(lines: seq<Text>)
    requires forall i | 0 <= i < |lines| :: 0 !in lines[i]
    ensures 0 !in JoinLines(lines)
  {
    if |lines| > 1 {
      JoinHasNoZero(lines[1..]);
    }
  }

  lemma NoZeroInside(task: seq<Pair>)
    requires AllWellFormed(task)
    ensures Utf8.NoZero(Canonical(task))
  {
    forall i | 0 <= i < |task| ensures 0 !in Spellings(task)[i] {
      assert Control(0) && WellFormed(task[i]);
    }
    JoinHasNoZero(Spellings(task));
  }

  // ---- the three bands ------------------------------------------------------------------------

  /** Three nibbles of the hash, each scaled to a channel. */
  function ColourOf(h: nat): Rgb
  {
    Rgb(17 * (h / 256 % 16), 17 * (h / 16 % 16), 17 * (h % 16))
  }

  function BandColour(record: seq<Byte>, i: nat): Rgb
    requires i < 3
  {
    ColourOf(Hash.Fold(Hash.OFFSET, record + [0x23, 0x30 + i]))
  }

  function BandColours(record: seq<Byte>): (bands: seq<Rgb>)
    ensures |bands| == 3
  {
    [BandColour(record, 0), BandColour(record, 1), BandColour(record, 2)]
  }

  /** `receipt_bands`; a record that has no UTF-8 form has no bands. */
  method ReceiptBands(task: seq<Pair>) returns (r: Option<seq<Rgb>>)
    ensures r.Some? <==> Utf8.Scalars(Canonical(task))
    ensures r.Some? ==> r.value == BandColours(Utf8.Encode(Canonical(task)))
  {
    if !Utf8.Scalars(Canonical(task)) {
      return None;
    }
    var record := Utf8.Encode(Canonical(task));
    hide BandColour;
    var bands: seq<Rgb> := [];
    for i := 0 to 3
      invariant bands == BandColours(record)[..i]
    {
      var c := OneBand(record, i);
      bands := bands + [c];
    }
    return Some(bands);
  }

  method OneBand(record: seq<Byte>, i: nat) returns (c: Rgb)
    requires i < 3
    ensures c == BandColour(record, i)
  {
    var data := record + [0x23] + [0x30 + i];
    assert data == record + [0x23, 0x30 + i];
    var h := Hash.Fnv(data);
    Nibble(h / 256);
    Nibble(h / 16);
    Nibble(h);
    return Rgb(Bits.And(h / 256, 15) * 17, Bits.And(h / 16, 15) * 17, Bits.And(h, 15) * 17);
  }

  lemma Nibble(x: nat)
    ensures Bits.And(x, 15) == x % 16
  {
    assert Bits.Pow2(4) == 16;
    Bits.AndIsRemainder(4, x / 16, x % 16);
  }

  /** Read as three hexadecimal digits, red first, the channels spell the low twelve
    * bits of the hash; and each is its digit twice. */
  lemma ChannelsSpellHash(h: nat)
    ensures var c := ColourOf(h);
            var r: int, g: int, b: int := c.r, c.g, c.b;
            && h % 4096 == 0x100 * (r / 0x11) + 0x10 * (g / 0x11) + b / 0x11
            && r % 0x11 == 0 && g % 0x11 == 0 && b % 0x11 == 0
  {
    Nibbles(h);
    Repeated(h / 256 % 16);
    Repeated(h / 16 % 16);
    Repeated(h % 16);
  }

  lemma Repeated(n: nat)
    ensures 17 * n / 17 == n && 17 * n % 17 == 0
  {
  }

  /** Hashes that differ in their low twelve bits give colours the reader tells apart. */
  lemma ColoursTellApart(h: nat, g: nat)
    requires h % 4096 != g % 4096
    ensures !Alike(ColourOf(h), ColourOf(g))
  {
    Nibbles(h);
    Nibbles(g);
    Scaled(h / 256 % 16);
    Scaled(h / 16 % 16);
    Scaled(h % 16);
    Scaled(g / 256 % 16);
    Scaled(g / 16 % 16);
    Scaled(g % 16);
  }

  lemma Nibbles(h: nat)
    ensures h % 4096 == 256 * (h / 256 % 16) + 16 * (h / 16 % 16) + h % 16
  {
    var a := h / 16;
    var b := a / 16;
    var c := b / 16;
    ShiftTwice(h);
    Assemble(h, a, b, c, h % 16, a % 16, b % 16);
  }

  lemma ShiftTwice(h: nat)
    ensures h / 256 == h / 16 / 16
  {
  }

  lemma Assemble(h: nat, a: nat, b: nat, c: nat, x: nat, y: nat, z: nat)
    requires h == 16 * a + x && a == 16 * b + y && b == 16 * c + z && x < 16 && y < 16 && z < 16
    ensures h % 4096 == 256 * z + 16 * y + x
  {
    Hash.Remainder(4096, c, 256 * z + 16 * y + x);
  }

  lemma Scaled(n: nat)
    requires n < 16
    ensures 17 * n / 16 == n
  {
  }

  /** The bands of one record are always three different colours, as the reader sees them. */
  lemma BandsDiffer(record: seq<Byte>, i: nat, j: nat)
    requires i < j < 3
    ensures !Alike(BandColour(record, i), BandColour(record, j))
  {
    var a, b := 0x30 + i, 0x30 + j;
    var stem := record + [0x23];
    assert stem + [a] + [] == record + [0x23, a];
    assert stem + [b] + [] == record + [0x23, b];
    Hash.OneByteShows(stem, a, b, []);
    ColoursTellApart(Hash.Fold(Hash.OFFSET, record + [0x23, a]), Hash.Fold(Hash.OFFSET, record + [0x23, b]));
  }

  /** One wrong byte in the record changes every band. */
  lemma WrongByteChangesEveryBand(before: seq<Byte>, a: Byte, b: Byte, after: seq<Byte>, i: nat)
    requires a != b && i < 3
    ensures !Alike(BandColour(before + [a] + after, i), BandColour(before + [b] + after, i))
  {
    var tail := after + [0x23, 0x30 + i];
    assert before + [a] + tail == before + [a] + after + [0x23, 0x30 + i];
    assert before + [b] + tail == before + [b] + after + [0x23, 0x30 + i];
    Hash.OneByteShows(before, a, b, tail);
    ColoursTellApart(Hash.Fold(Hash.OFFSET, before + [a] + tail), Hash.Fold(Hash.OFFSET, before + [b] + tail));
  }

  /** So on any capture three or more pixels wide the receipt is read exactly, for every record. */
  lemma ReceiptDistinguishable(record: seq<Byte>, width: nat)
    ensures Distinguishable(width, BandColours(record)) <==> width >= 3
  {
    hide BandColour;
    BandsDiffer(record, 0, 1);
    BandsDiffer(record, 0, 2);
    BandsDiffer(record, 1, 2);
    var bands := BandColours(record);
    assert bands[0] != bands[1];
  }

  /** The check a captured frame is put to while the receipt is awaited. */
  method FrameCarries(f: Frame, task: seq<Pair>) returns (r: Option<bool>)
    requires f.Valid()
    ensures r.Some? <==> Utf8.Scalars(Canonical(task))
    ensures r.Some? && f.width >= 3 ==>
              (r.value <==> Painted(f, BandColours(Utf8.Encode(Canonical(task))), MIN_BAND_ROWS))
  {
    hide Painted, BandColours;
    var bands := ReceiptBands(task);
    if bands.None? {
      return None;
    }
    ReceiptDistinguishable(Utf8.Encode(Canonical(task)), f.width);
    var found := ReadBands(f, bands.value, MIN_BAND_ROWS);
    return Some(found);
  }
}
