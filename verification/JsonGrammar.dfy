/** A grammar of JSON texts that keeps everything a text may vary in: white space, escapes, the form of numbers. A text of the
    grammar is parsed to the value it stands for, and whatever is parsed is a text of the grammar. */
module JsonGrammar {
  import opened AddrTree
  import opened NetUtil
  import opened JsonNumbers
  import opened Json
  import opened JsonReading

  // ----- numbers

  lemma {:induction false} NumericExactly(b: Byte)
    ensures IsNumeric(b) <==> InNumbers(b)
  {
    BytesExactly(b);
  }

  lemma {:induction false} NumberEnds(s: seq<Byte>, i: nat, t: seq<Byte>)
    requires At(s, i, t) && (forall b <- t :: IsNumeric(b)) && i + |t| < |s| && !IsNumeric(s[i + |t|])
    ensures NumberLen(s, i) == |t|
    decreases |t|
  {
    if t != [] {
      AtByte(s, i, t, 0);
      assert [t[0]] + t[1..] == t;
      AtSplit(s, i, [t[0]], t[1..]);
      NumberEnds(s, i + 1, t[1..]);
    }
  }

  lemma {:induction false} NumeralRun(s: seq<Byte>, i: nat, m: Numeral)
    requires Grammatical(m) && At(s, i, TextOf(m)) && i + |TextOf(m)| < |s| && !InNumbers(s[i + |TextOf(m)|])
    ensures NumberLen(s, i) == |TextOf(m)|
  {
    forall b <- TextOf(m) ensures IsNumeric(b) { NumericExactly(b); }
    NumericExactly(s[i + |TextOf(m)|]);
    NumberEnds(s, i, TextOf(m));
  }

  /** A number of at most 63 bytes, with a byte behind it that no number contains, goes to `strtod` whole. */
  lemma {:induction false} NumberTaken(lib: Lib, s: seq<Byte>, i: nat, m: Numeral)
    requires LibOk(lib) && Grammatical(m) && |TextOf(m)| <= 63
    requires At(s, i, TextOf(m)) && i + |TextOf(m)| < |s| && !InNumbers(s[i + |TextOf(m)|])
    ensures ParseNumber(lib, s, i) == Some((Number(lib.strtod(TextOf(m)).0), i + |TextOf(m)|))
    ensures s[i] == 45 || 48 <= s[i] <= 57
  {
    var t := TextOf(m);
    NumeralRun(s, i, m);
    NumberBegins(m);
    AtByte(s, i, t, 0);
    StrtodWhole(lib, m);
    assert AtNow(s, i, t, 0);
  }

  /** Of a longer one the first 63 bytes do. */
  lemma {:induction false} NumberCut(lib: Lib, s: seq<Byte>, i: nat, m: Numeral)
    requires LibOk(lib) && Grammatical(m) && |TextOf(m)| > 63
    requires At(s, i, TextOf(m)) && i + |TextOf(m)| < |s| && !InNumbers(s[i + |TextOf(m)|])
    ensures var (x, n) := lib.strtod(TextOf(m)[..63]);
            ParseNumber(lib, s, i) == if n == 0 then None else Some((Number(x), i + n))
  {
    var t := TextOf(m);
    NumeralRun(s, i, m);
    assert AtNow(s, i, t, 0);
    assert s[i..i + 63] == s[i..i + |t|][..63];
  }

  // ----- characters of strings

  const LOWER: seq<Byte> := [48, 49, 50, 51, 52, 53, 54, 55, 56, 57, 97, 98, 99, 100, 101, 102]
  const UPPER: seq<Byte> := [48, 49, 50, 51, 52, 53, 54, 55, 56, 57, 65, 66, 67, 68, 69, 70]

  /** The hexadecimal digit `b` stands for `n`. */
  predicate Stands(b: Byte, n: nat) { n < 16 && (b == LOWER[n] || b == UPPER[n]) }

  ghost predicate HexForNow(d: seq<Byte>, code: nat, k: int) {
    && |d| == 4 && code < 0x1_0000
    && Stands(d[0], code / 4096) && Stands(d[1], code / 256 % 16) && Stands(d[2], code / 16 % 16) && Stands(d[3], code % 16)
  }

  /** The digits `d` stand for `code`. */
  ghost predicate HexFor(d: seq<Byte>, code: nat) {
    forall k {:trigger HexForNow(d, code, k)} :: HexForNow(d, code, k)
  }

  /** A byte as it is, a short escape, four digits, two surrogates; four bytes that are no digits, and a backslash that the
      closing quote completes. */
  datatype Chr =
    | Plain(b: Byte)
    | Short(c: Byte)
    | Unicode(d: seq<Byte>, code: nat)
    | Pair(d: seq<Byte>, hi: nat, e: seq<Byte>, lo: nat)
    | Broken(d: seq<Byte>)
    | Cut

  function ShortFor(c: Byte): Byte {
    if c == 98 then 8 else if c == 102 then 12 else if c == 110 then 10 else if c == 114 then 13 else if c == 116 then 9 else c
  }

  /** Characters that the grammar allows. */
  ghost predicate ChrOk(c: Chr) {
    match c
    case Plain(b) => b != 34 && b != 92
    case Short(c) => c == 34 || c == 92 || c == 47 || c == 98 || c == 102 || c == 110 || c == 114 || c == 116
    case Unicode(d, code) => HexFor(d, code) && code < 0x1_0000 && !(0xD800 <= code <= 0xDFFF)
    case Pair(d, hi, e, lo) => HexFor(d, hi) && HexFor(e, lo) && 0xD800 <= hi <= 0xDBFF && 0xDC00 <= lo <= 0xDFFF
    case _ => false
  }

  function ChrText(c: Chr): seq<Byte> {
    match c
    case Plain(b) => [b]
    case Short(c) => [92, c]
    case Unicode(d, _) => [92, 117] + d
    case Pair(d, _, e, _) => ([92, 117] + d) + ([92, 117] + e)
    case Broken(d) => [92, 117] + d
    case Cut => [92]
  }

  function ChrMeans(c: Chr): seq<Byte> {
    match c
    case Plain(b) => [b]
    case Short(c) => [ShortFor(c)]
    case Unicode(_, code) => Encoded(code)
    case Pair(_, hi, _, lo) => Encoded(0x1_0000 + (hi - 0xD800) * 1024 + (lo - 0xDC00))
    case Broken(_) => [0]
    case Cut => [34]
  }

  function Encoded(code: int): seq<Byte> { if 0 <= code < 0x11_0000 then Utf8(code) else [] }

  ghost predicate CharsOk(cs: seq<Chr>) { forall c <- cs :: ChrOk(c) }

  lemma {:induction false} FourBytes(d: seq<Byte>, code: nat)
    requires HexFor(d, code)
    ensures |d| == 4 && code < 0x1_0000
  {
    assert HexForNow(d, code, 0);
  }

  function CharsText(cs: seq<Chr>): seq<Byte> { if cs == [] then [] else ChrText(cs[0]) + CharsText(cs[1..]) }

  function CharsMean(cs: seq<Chr>): seq<Byte> { if cs == [] then [] else ChrMeans(cs[0]) + CharsMean(cs[1..]) }

  lemma {:induction false} StandsIs(b: Byte, n: nat)
    ensures Stands(b, n) <==> HexValue(b) == Some(n)
  {
  }

  lemma {:induction false} FourDigits(code: nat)
    ensures code < 0x1_0000 ==> ((code / 4096 * 16 + code / 256 % 16) * 16 + code / 16 % 16) * 16 + code % 16 == code
  {
  }

  /** Neither quote nor backslash. */
  predicate Inert(b: Byte) { b != 34 && b != 92 }

  lemma {:induction false} HexRead(s: seq<Byte>, i: nat, d: seq<Byte>, code: nat)
    requires At(s, i, d) && HexFor(d, code)
    ensures |d| == 4 && code < 0x1_0000 && i + 4 <= |s| && Hex4(s, i) == code
    ensures Inert(s[i]) && Inert(s[i + 1]) && Inert(s[i + 2]) && Inert(s[i + 3])
  {
    assert HexForNow(d, code, 0);
    AtByte(s, i, d, 0);
    AtByte(s, i, d, 1);
    AtByte(s, i, d, 2);
    AtByte(s, i, d, 3);
    StandsIs(d[0], code / 4096);
    StandsIs(d[1], code / 256 % 16);
    StandsIs(d[2], code / 16 % 16);
    StandsIs(d[3], code % 16);
    FourDigits(code);
  }

  /** The scan for the closing quote passes over six bytes of a literal. */
  lemma {:induction false} ScanSix(s: seq<Byte>, i: nat)
    requires i + 6 <= |s| && s[i] == 92 && Inert(s[i + 2]) && Inert(s[i + 3]) && Inert(s[i + 4]) && Inert(s[i + 5])
    ensures Scan(s, i) == Scan(s, i + 6)
  {
    assert Scan(s, i) == Scan(s, i + 2) == Scan(s, i + 3) == Scan(s, i + 4) == Scan(s, i + 5);
  }

  lemma {:induction false} LiteralAt(s: seq<Byte>, i: nat, d: seq<Byte>, code: nat)
    requires At(s, i, [92, 117] + d) && HexFor(d, code)
    ensures |d| == 4 && code < 0x1_0000 && i + 6 <= |s| && s[i] == 92 && s[i + 1] == 117 && Hex4(s, i + 2) == code && Scan(s, i) == Scan(s, i + 6)
  {
    AtSplit(s, i, [92, 117], d);
    AtByte(s, i, [92, 117], 0);
    AtByte(s, i, [92, 117], 1);
    HexRead(s, i + 2, d, code);
    ScanSix(s, i);
  }

  lemma {:induction false} ShortFound(s: seq<Byte>, i: nat, c: Byte, end: nat)
    requires ChrOk(Short(c)) && At(s, i, [92, c]) && i + 2 <= end < |s|
    ensures s[i] == 92 && Scan(s, i) == Scan(s, i + 2) && Unescaped(s, i, end) == Some(([ShortFor(c)], 2))
  {
    AtByte(s, i, [92, c], 0);
    AtByte(s, i, [92, c], 1);
  }

  lemma {:induction false} UnicodeFound(s: seq<Byte>, i: nat, d: seq<Byte>, code: nat, end: nat)
    requires ChrOk(Unicode(d, code)) && At(s, i, [92, 117] + d) && i + 6 <= end < |s|
    ensures s[i] == 92 && Scan(s, i) == Scan(s, i + 6) && Unescaped(s, i, end) == Some((Encoded(code), 6))
  {
    LiteralAt(s, i, d, code);
  }

  lemma {:induction false} PairRead(s: seq<Byte>, i: nat, end: nat, hi: nat, lo: nat)
    requires i + 12 <= end < |s| && s[i + 1] == 117 && s[i + 6] == 92 && s[i + 7] == 117 && Hex4(s, i + 2) == hi && Hex4(s, i + 8) == lo
    requires 0xD800 <= hi <= 0xDBFF && 0xDC00 <= lo <= 0xDFFF
    ensures Unescaped(s, i, end) == Some((Encoded(0x1_0000 + (hi - 0xD800) * 1024 + (lo - 0xDC00)), 12))
  {
    assert Utf16(s, i, end) == Some((0x1_0000 + (hi - 0xD800) * 1024 + (lo - 0xDC00), 12));
  }

  lemma {:induction false} PairFound(s: seq<Byte>, i: nat, d: seq<Byte>, hi: nat, e: seq<Byte>, lo: nat, end: nat)
    requires ChrOk(Pair(d, hi, e, lo)) && At(s, i, ([92, 117] + d) + ([92, 117] + e)) && i + 12 <= end < |s|
    ensures s[i] == 92 && Scan(s, i) == Scan(s, i + 12)
    ensures Unescaped(s, i, end) == Some((Encoded(0x1_0000 + (hi - 0xD800) * 1024 + (lo - 0xDC00)), 12))
  {
    FourBytes(d, hi);
    AtSplit(s, i, [92, 117] + d, [92, 117] + e);
    LiteralAt(s, i, d, hi);
    LiteralAt(s, i + 6, e, lo);
    PairRead(s, i, end, hi, lo);
  }

  /** One character in its place: the scan passes over it, and it is read as what it stands for. */
  lemma {:induction false} ChrFound(s: seq<Byte>, i: nat, c: Chr, end: nat)
    requires ChrOk(c) && At(s, i, ChrText(c)) && i + |ChrText(c)| <= end < |s|
    ensures Scan(s, i) == Scan(s, i + |ChrText(c)|)
    ensures Unescape(s, i, end) == Before(ChrMeans(c), Unescape(s, i + |ChrText(c)|, end))
  {
    match c
    case Plain(b) => AtByte(s, i, [b], 0);
    case Short(x) => ShortFound(s, i, x, end);
    case Unicode(d, code) =>
      FourBytes(d, code);
      UnicodeFound(s, i, d, code, end);
    case Pair(d, hi, e, lo) =>
      FourBytes(d, hi);
      FourBytes(e, lo);
      PairFound(s, i, d, hi, e, lo, end);
  }

  lemma {:induction false} CharsFound(s: seq<Byte>, i: nat, cs: seq<Chr>, end: nat)
    requires CharsOk(cs) && At(s, i, CharsText(cs)) && end == i + |CharsText(cs)| < |s| && s[end] == 34
    ensures Scan(s, i) == Some(end) && Unescape(s, i, end) == Some(CharsMean(cs))
    decreases cs
  {
    if cs != [] {
      AtSplit(s, i, ChrText(cs[0]), CharsText(cs[1..]));
      ChrFound(s, i, cs[0], end);
      CharsFound(s, i + |ChrText(cs[0])|, cs[1..], end);
    }
  }

  lemma {:induction false} QuotesFound(s: seq<Byte>, i: nat, t: seq<Byte>)
    requires At(s, i, [34] + (t + [34]))
    ensures i < |s| && s[i] == 34 && At(s, i + 1, t) && i + 1 + |t| < |s| && s[i + 1 + |t|] == 34
  {
    AtSplit(s, i, [34], t + [34]);
    AtByte(s, i, [34], 0);
    AtSplit(s, i + 1, t, [34]);
    AtByte(s, i + 1 + |t|, [34], 0);
  }

  /** A quoted string of allowed characters is read as what they stand for, up to the first zero byte. */
  lemma {:induction false} StringFound(s: seq<Byte>, i: nat, cs: seq<Chr>)
    requires CharsOk(cs) && At(s, i, [34] + (CharsText(cs) + [34]))
    ensures Named(s, i, CString(CharsMean(cs)), i + 2 + |CharsText(cs)|)
  {
    QuotesFound(s, i, CharsText(cs));
    CharsFound(s, i + 1, cs, i + 1 + |CharsText(cs)|);
    assert NamedNow(s, i, CString(CharsMean(cs)), i + 2 + |CharsText(cs)|, 0);
  }

  // ----- UTF-8, as section 3 of RFC 3629 has it

  /** The code point in a sequence of one to four bytes. */
  function Decoded(u: seq<Byte>): int {
    if |u| == 1 then u[0]
    else if |u| == 2 then (u[0] as int - 192) * 64 + (u[1] as int - 128)
    else if |u| == 3 then (u[0] as int - 224) * 4096 + (u[1] as int - 128) * 64 + (u[2] as int - 128)
    else if |u| == 4 then (u[0] as int - 240) * 262144 + (u[1] as int - 128) * 4096 + (u[2] as int - 128) * 64 + (u[3] as int - 128)
    else -1
  }

  /** The shortest sequence that holds the code point, with the marks of its length and of continuation. */
  lemma {:induction false} Utf8Exactly(code: nat)
    requires code < 0x11_0000
    ensures var u := Utf8(code);
            && |u| == (if code < 0x80 then 1 else if code < 0x800 then 2 else if code < 0x1_0000 then 3 else 4)
            && Decoded(u) == code
            && (|u| == 2 ==> 192 <= u[0] < 224) && (|u| == 3 ==> 224 <= u[0] < 240) && (|u| == 4 ==> 240 <= u[0] < 245)
            && forall i | 0 < i < |u| :: 128 <= u[i] < 192
  {
  }

  // ----- texts

  datatype Tree =
    | TNull
    | TBool(b: bool)
    | TNumber(m: Numeral)
    | TLoose(text: seq<Byte>, x: real)
    | TString(cs: seq<Chr>)
    | TArray(items: Elements)
    | TObject(members: Fields)

  /** The elements of an array: white space only, or values with white space around them. */
  datatype Elements =
    | NoElement(gap: seq<Byte>)
    | LastElement(before: seq<Byte>, value: Tree, behind: seq<Byte>)
    | NextElement(before: seq<Byte>, value: Tree, behind: seq<Byte>, next: Elements)

  datatype Fields =
    | NoField(gap: seq<Byte>)
    | LastField(before: seq<Byte>, name: seq<Chr>, mid: seq<Byte>, pre: seq<Byte>, value: Tree, behind: seq<Byte>)
    | NextField(before: seq<Byte>, name: seq<Chr>, mid: seq<Byte>, pre: seq<Byte>, value: Tree, behind: seq<Byte>, next: Fields)

  predicate Blank(w: seq<Byte>) { forall b <- w :: b <= 32 }

  ghost predicate TreeOk(t: Tree) {
    match t
    case TNumber(m) => Grammatical(m) && |TextOf(m)| <= 63
    case TString(cs) => CharsOk(cs)
    case TArray(items) => ElementsOk(items)
    case TObject(ms) => FieldsOk(ms)
    case TLoose(_, _) => false
    case _ => true
  }

  ghost predicate ElementsOk(es: Elements) {
    match es
    case NoElement(gap) => Blank(gap)
    case LastElement(before, v, behind) => Blank(before) && TreeOk(v) && Blank(behind)
    case NextElement(before, v, behind, next) => Blank(before) && TreeOk(v) && Blank(behind) && !next.NoElement? && ElementsOk(next)
  }

  ghost predicate FieldsOk(fs: Fields) {
    match fs
    case NoField(gap) => Blank(gap)
    case LastField(before, name, mid, pre, v, behind) =>
      Blank(before) && CharsOk(name) && Blank(mid) && Blank(pre) && TreeOk(v) && Blank(behind)
    case NextField(before, name, mid, pre, v, behind, next) =>
      Blank(before) && CharsOk(name) && Blank(mid) && Blank(pre) && TreeOk(v) && Blank(behind) && !next.NoField? && FieldsOk(next)
  }

  /** The text of a tree, with `tail` behind it. */
  function Text(t: Tree, tail: seq<Byte>): seq<Byte>
    decreases t
  {
    match t
    case TNull => [110, 117, 108, 108] + tail
    case TBool(b) => (if b then [116, 114, 117, 101] else [102, 97, 108, 115, 101]) + tail
    case TNumber(m) => TextOf(m) + tail
    case TLoose(text, _) => text + tail
    case TString(cs) => QuotedText(cs, tail)
    case TArray(items) => [91] + ElementsText(items, tail)
    case TObject(ms) => [123] + FieldsText(ms, tail)
  }

  function QuotedText(cs: seq<Chr>, tail: seq<Byte>): seq<Byte> { ([34] + (CharsText(cs) + [34])) + tail }

  /** The elements, the closing bracket, and `tail`. */
  function ElementsText(es: Elements, tail: seq<Byte>): seq<Byte>
    decreases es
  {
    match es
    case NoElement(gap) => gap + ([93] + tail)
    case LastElement(before, v, behind) => before + Text(v, behind + ([93] + tail))
    case NextElement(before, v, behind, next) => before + Text(v, behind + ([44] + ElementsText(next, tail)))
  }

  function FieldsText(fs: Fields, tail: seq<Byte>): seq<Byte>
    decreases fs
  {
    match fs
    case NoField(gap) => gap + ([125] + tail)
    case LastField(before, name, mid, pre, v, behind) =>
      before + QuotedText(name, mid + ([58] + (pre + Text(v, behind + ([125] + tail)))))
    case NextField(before, name, mid, pre, v, behind, next) =>
      before + QuotedText(name, mid + ([58] + (pre + Text(v, behind + ([44] + FieldsText(next, tail))))))
  }

  /** What a text stands for. */
  function Meaning(lib: Lib, t: Tree): Value
    decreases t
  {
    match t
    case TNull => Null
    case TBool(b) => Bool(b)
    case TNumber(m) => Number(lib.strtod(TextOf(m)).0)
    case TLoose(_, x) => Number(x)
    case TString(cs) => Str(CString(CharsMean(cs)))
    case TArray(items) => Array(ElementsMean(lib, items))
    case TObject(ms) => Object(FieldsMean(lib, ms))
  }

  function ElementsMean(lib: Lib, es: Elements): Items
    decreases es
  {
    match es
    case NoElement(_) => NoItem
    case LastElement(_, v, _) => Item(Meaning(lib, v), NoItem)
    case NextElement(_, v, _, next) => Item(Meaning(lib, v), ElementsMean(lib, next))
  }

  function FieldsMean(lib: Lib, fs: Fields): Members
    decreases fs
  {
    match fs
    case NoField(_) => NoMember
    case LastField(_, name, _, _, v, _) => Member(CString(CharsMean(name)), Meaning(lib, v), NoMember)
    case NextField(_, name, _, _, v, _, next) => Member(CString(CharsMean(name)), Meaning(lib, v), FieldsMean(lib, next))
  }

  // ----- how deep arrays and objects are nested

  function Max(a: nat, b: nat): nat { if a < b then b else a }

  function Depth(v: Value): nat {
    match v
    case Array(items) => 1 + DepthItems(items)
    case Object(ms) => 1 + DepthMembers(ms)
    case _ => 0
  }

  function DepthItems(items: Items): nat { if items.NoItem? then 0 else Max(Depth(items.value), DepthItems(items.next)) }

  function DepthMembers(ms: Members): nat { if ms.NoMember? then 0 else Max(Depth(ms.value), DepthMembers(ms.next)) }

  /** What parsing a value gives: the value, unless it is nested too deeply. */
  function Expected(v: Value, e: nat, depth: nat): Option<(Value, nat)> {
    if depth + Depth(v) <= 1000 then Some((v, e)) else None
  }

  function ExpectedItems(items: Items, e: nat, depth: nat): Option<(Items, nat)> {
    if depth + DepthItems(items) <= 1000 then Some((items, e)) else None
  }

  function ExpectedMembers(ms: Members, e: nat, depth: nat): Option<(Members, nat)> {
    if depth + DepthMembers(ms) <= 1000 then Some((ms, e)) else None
  }

  // ----- every text of the grammar is parsed

  lemma {:induction false} SkipOver(s: seq<Byte>, i: nat, w: seq<Byte>)
    requires At(s, i, w) && Blank(w) && i + |w| < |s| && s[i + |w|] > 32
    ensures Skip(s, i) == i + |w|
    decreases |w|
  {
    if w != [] {
      AtByte(s, i, w, 0);
      assert w[0] in w && forall b <- w[1..] :: b in w;
      assert [w[0]] + w[1..] == w;
      AtSplit(s, i, [w[0]], w[1..]);
      SkipOver(s, i + 1, w[1..]);
    }
  }

  /** White space and what is behind it. */
  lemma {:induction false} SkipTo(s: seq<Byte>, i: nat, w: seq<Byte>, rest: seq<Byte>)
    requires At(s, i, w + rest) && Blank(w) && rest != [] && rest[0] > 32
    ensures i + |w| < |s| && Skip(s, i) == i + |w| && At(s, i + |w|, rest) && s[i + |w|] == rest[0]
  {
    AtSplit(s, i, w, rest);
    AtByte(s, i + |w|, rest, 0);
    SkipOver(s, i, w);
  }

  /** A text begins with a byte that says what it is. */
  lemma {:induction false} TextBegins(t: Tree, tail: seq<Byte>)
    requires TreeOk(t)
    ensures var x := Text(t, tail);
            x != [] && x[0] > 32 && x[0] != 93 && x[0] != 125 && x[0] != 44 && x[0] != 0xEF
            && (t.TArray? ==> x[0] == 91) && (t.TObject? ==> x[0] == 123)
  {
    if t.TNumber? { NumberBegins(t.m); }
  }

  lemma {:induction false} WordFound(lib: Lib, s: seq<Byte>, i: nat, depth: nat, w: seq<Byte>, tail: seq<Byte>)
    requires LibOk(lib) && Terminated(s) && At(s, i, w + tail) && (w == NULL_TEXT || w == TRUE_TEXT || w == FALSE_TEXT) && tail != []
    ensures Reads(lib, s, i, depth, Some((if w == NULL_TEXT then Null else Bool(w == TRUE_TEXT), i + |w|))) && At(s, i + |w|, tail)
  {
    AtSplit(s, i, w, tail);
    assert AtNow(s, i, w, 0);
    AtByte(s, i, w, 0);
    ReadLiteral(lib, s, i, depth);
  }

  lemma {:induction false} NumeralFound(lib: Lib, s: seq<Byte>, i: nat, depth: nat, m: Numeral, tail: seq<Byte>)
    requires LibOk(lib) && Terminated(s) && Grammatical(m) && |TextOf(m)| <= 63 && At(s, i, TextOf(m) + tail)
    requires tail != [] && !InNumbers(tail[0])
    ensures Reads(lib, s, i, depth, Some((Number(lib.strtod(TextOf(m)).0), i + |TextOf(m)|))) && At(s, i + |TextOf(m)|, tail)
  {
    AtSplit(s, i, TextOf(m), tail);
    AtByte(s, i + |TextOf(m)|, tail, 0);
    NumberTaken(lib, s, i, m);
    ReadNumber(lib, s, i, depth);
  }

  lemma {:induction false} QuotedPlace(s: seq<Byte>, i: nat, cs: seq<Chr>, tail: seq<Byte>)
    requires CharsOk(cs) && At(s, i, QuotedText(cs, tail))
    ensures Named(s, i, CString(CharsMean(cs)), i + 2 + |CharsText(cs)|) && At(s, i + 2 + |CharsText(cs)|, tail)
  {
    AtSplit(s, i, [34] + (CharsText(cs) + [34]), tail);
    StringFound(s, i, cs);
  }

  lemma {:induction false} QuotedFound(lib: Lib, s: seq<Byte>, i: nat, depth: nat, cs: seq<Chr>, tail: seq<Byte>)
    requires LibOk(lib) && Terminated(s) && CharsOk(cs) && At(s, i, QuotedText(cs, tail))
    ensures Reads(lib, s, i, depth, Some((Str(CString(CharsMean(cs))), i + 2 + |CharsText(cs)|)))
    ensures At(s, i + 2 + |CharsText(cs)|, tail)
  {
    QuotedPlace(s, i, cs, tail);
    ReadString(lib, s, i, depth, CString(CharsMean(cs)), i + 2 + |CharsText(cs)|);
  }

  lemma {:induction false} ScalarFound(lib: Lib, t: Tree, s: seq<Byte>, i: nat, depth: nat, tail: seq<Byte>) returns (e: nat)
    requires LibOk(lib) && Terminated(s) && TreeOk(t) && !t.TArray? && !t.TObject? && At(s, i, Text(t, tail))
    requires tail != [] && (t.TNumber? ==> !InNumbers(tail[0]))
    ensures Reads(lib, s, i, depth, Some((Meaning(lib, t), e))) && At(s, e, tail) && e + |tail| == i + |Text(t, tail)|
  {
    match t
    case TString(cs) =>
      e := i + 2 + |CharsText(cs)|;
      QuotedFound(lib, s, i, depth, cs, tail);
    case TNumber(m) =>
      e := i + |TextOf(m)|;
      NumeralFound(lib, s, i, depth, m, tail);
    case TNull =>
      e := i + 4;
      WordFound(lib, s, i, depth, NULL_TEXT, tail);
    case TBool(b) =>
      e := i + if b then 4 else 5;
      WordFound(lib, s, i, depth, if b then TRUE_TEXT else FALSE_TEXT, tail);
    case _ =>
  }

  /** The text from the first value on, and behind it. */
  function FromValue(es: Elements, tail: seq<Byte>): seq<Byte>
    requires !es.NoElement?
  {
    Text(es.value, Onward(es, tail))
  }

  function Onward(es: Elements, tail: seq<Byte>): seq<Byte>
    requires !es.NoElement?
  {
    es.behind + (if es.NextElement? then [44] + ElementsText(es.next, tail) else [93] + tail)
  }

  lemma {:induction false} ElementsSplit(es: Elements, tail: seq<Byte>)
    requires !es.NoElement? && ElementsOk(es)
    ensures ElementsText(es, tail) == es.before + FromValue(es, tail) && FromValue(es, tail) != [] && FromValue(es, tail)[0] > 32
    ensures FromValue(es, tail)[0] != 93 && Blank(es.before)
  {
    TextBegins(es.value, Onward(es, tail));
  }

  /** White space, a byte, and what is behind it. */
  lemma {:induction false} Mark(s: seq<Byte>, j: nat, behind: seq<Byte>, c: Byte, rest: seq<Byte>)
    requires At(s, j, behind + ([c] + rest)) && Blank(behind) && c > 32
    ensures j < |s| && Skip(s, j) == j + |behind| < |s| && s[j + |behind|] == c && At(s, j + |behind| + 1, rest)
  {
    SkipTo(s, j, behind, [c] + rest);
    AtSplit(s, j + |behind|, [c], rest);
  }

  /** The same with more white space behind the byte. */
  lemma {:induction false} MarkThen(s: seq<Byte>, j: nat, behind: seq<Byte>, c: Byte, before: seq<Byte>, w: seq<Byte>, rest: seq<Byte>)
    requires At(s, j, behind + ([c] + rest)) && rest == before + w && Blank(behind) && Blank(before) && c > 32 && w != [] && w[0] > 32
    ensures var k := j + |behind| + 1;
            j < |s| && Skip(s, j) + 1 == k < |s| && s[k - 1] == c && Skip(s, k) == k + |before| && At(s, k + |before|, w)
  {
    Mark(s, j, behind, c, rest);
    SkipTo(s, j + |behind| + 1, before, w);
  }

  /** What stands behind a value goes on with no number. */
  lemma {:induction false} NoNumber(behind: seq<Byte>, c: Byte, rest: seq<Byte>)
    requires Blank(behind) && (c == 44 || c == 93 || c == 125)
    ensures behind + ([c] + rest) != [] && !InNumbers((behind + ([c] + rest))[0])
  {
    BytesExactly((behind + ([c] + rest))[0]);
    assert behind != [] ==> behind[0] in behind;
  }

  lemma {:induction false} AfterLast(es: Elements, s: seq<Byte>, j: nat, tail: seq<Byte>) returns (e: nat)
    requires es.LastElement? && ElementsOk(es) && At(s, j, Onward(es, tail))
    ensures j < |s| && Skip(s, j) + 1 == e && e <= |s| && s[e - 1] == CLOSE_ARRAY && At(s, e, tail) && e + |tail| == j + |Onward(es, tail)|
  {
    Mark(s, j, es.behind, 93, tail);
    e := j + |es.behind| + 1;
  }

  lemma {:induction false} AfterNext(es: Elements, s: seq<Byte>, j: nat, tail: seq<Byte>) returns (k: nat, q: nat)
    requires es.NextElement? && ElementsOk(es) && At(s, j, Onward(es, tail))
    ensures j < |s| && Skip(s, j) + 1 == k < |s| && s[k - 1] == COMMA && Skip(s, k) == q && At(s, q, FromValue(es.next, tail))
    ensures q + |FromValue(es.next, tail)| == j + |Onward(es, tail)|
  {
    k := j + |es.behind| + 1;
    ElementsSplit(es.next, tail);
    MarkThen(s, j, es.behind, 44, es.next.before, FromValue(es.next, tail), ElementsText(es.next, tail));
    q := k + |es.next.before|;
  }

  lemma {:induction false} OnwardNoNumber(es: Elements, tail: seq<Byte>)
    requires !es.NoElement? && ElementsOk(es)
    ensures Onward(es, tail) != [] && !InNumbers(Onward(es, tail)[0])
  {
    NoNumber(es.behind, if es.NextElement? then 44 else 93, if es.NextElement? then ElementsText(es.next, tail) else tail);
  }

  /** The beginning of an array: where its closing bracket or its first value is. */
  lemma {:induction false} ArrayOpens(es: Elements, s: seq<Byte>, i: nat, tail: seq<Byte>) returns (q: nat)
    requires ElementsOk(es) && At(s, i, Text(TArray(es), tail)) && tail != []
    ensures i + 1 < |s| && s[i] == OPEN_ARRAY && Skip(s, i + 1) == q < |s| && Skip(s, q) == q
    ensures s[q] == CLOSE_ARRAY <==> es.NoElement?
    ensures es.NoElement? ==> At(s, q + 1, tail) && q + 1 + |tail| == i + |Text(TArray(es), tail)|
    ensures !es.NoElement? ==> At(s, q, FromValue(es, tail)) && q + |FromValue(es, tail)| == i + |Text(TArray(es), tail)|
  {
    AtSplit(s, i, [91], ElementsText(es, tail));
    AtByte(s, i, [91], 0);
    if es.NoElement? {
      Mark(s, i + 1, es.gap, 93, tail);
      q := i + 1 + |es.gap|;
    } else {
      ElementsSplit(es, tail);
      SkipTo(s, i + 1, es.before, FromValue(es, tail));
      q := i + 1 + |es.before|;
    }
  }

  lemma {:induction false} ValueFound(lib: Lib, t: Tree, s: seq<Byte>, i: nat, depth: nat, tail: seq<Byte>) returns (e: nat)
    requires LibOk(lib) && Terminated(s) && TreeOk(t) && At(s, i, Text(t, tail)) && depth <= 1000
    requires tail != [] && (t.TNumber? ==> !InNumbers(tail[0]))
    ensures Reads(lib, s, i, depth, Expected(Meaning(lib, t), e, depth)) && At(s, e, tail) && e + |tail| == i + |Text(t, tail)|
    decreases t, 1
  {
    match t
    case TArray(es) =>
      var q := ArrayOpens(es, s, i, tail);
      e := q + 1;
      if !es.NoElement? {
        e := ElementsFound(lib, es, s, q, q, Min(depth + 1, 1000), tail);
      }
      ReadArray(lib, s, i, q, depth, ExpectedItems(ElementsMean(lib, es), e, depth + 1));
    case TObject(fs) =>
      var q := ObjectOpens(fs, s, i, tail);
      e := q + 1;
      if !fs.NoField? {
        e := FieldsFound(lib, fs, s, q, q, Min(depth + 1, 1000), tail, i + |Text(t, tail)|);
      }
      ReadObject(lib, s, i, q, depth, ExpectedMembers(FieldsMean(lib, fs), e, depth + 1));
    case _ =>
      e := ScalarFound(lib, t, s, i, depth, tail);
  }

  lemma {:induction false} LastRead(lib: Lib, s: seq<Byte>, k: nat, q: nat, depth: nat, v: Value, j: nat, e: nat)
    requires k < |s| && Skip(s, k) == q && Reads(lib, s, q, depth, Expected(v, j, depth))
    requires j < |s| && Skip(s, j) + 1 == e <= |s| && s[e - 1] == CLOSE_ARRAY
    ensures ReadsItems(lib, s, k, depth, ExpectedItems(Item(v, NoItem), e, depth))
  {
    assert DepthItems(Item(v, NoItem)) == Depth(v);
    ReadLastItem(lib, s, k, depth, Expected(v, j, depth));
  }

  lemma {:induction false} NextRead(lib: Lib, s: seq<Byte>, k: nat, q: nat, depth: nat, v: Value, j: nat, k': nat, more: Items, e: nat)
    requires k < |s| && Skip(s, k) == q && Reads(lib, s, q, depth, Expected(v, j, depth))
    requires j < |s| && Skip(s, j) + 1 == k' < |s| && s[k' - 1] == COMMA && ReadsItems(lib, s, k', depth, ExpectedItems(more, e, depth))
    ensures ReadsItems(lib, s, k, depth, ExpectedItems(Item(v, more), e, depth))
  {
    ReadNextItem(lib, s, k, depth, Expected(v, j, depth), ExpectedItems(more, e, depth));
  }

  lemma {:induction false} ElementsFound(lib: Lib, es: Elements, s: seq<Byte>, k: nat, q: nat, depth: nat, tail: seq<Byte>) returns (e: nat)
    requires LibOk(lib) && Terminated(s) && ElementsOk(es) && !es.NoElement? && depth <= 1000
    requires k < |s| && Skip(s, k) == q && At(s, q, FromValue(es, tail)) && tail != []
    ensures ReadsItems(lib, s, k, depth, ExpectedItems(ElementsMean(lib, es), e, depth))
    ensures At(s, e, tail) && e + |tail| == q + |FromValue(es, tail)|
    decreases es, 0
  {
    OnwardNoNumber(es, tail);
    var j := ValueFound(lib, es.value, s, q, depth, Onward(es, tail));
    var v := Meaning(lib, es.value);
    if es.LastElement? {
      e := AfterLast(es, s, j, tail);
      LastRead(lib, s, k, q, depth, v, j, e);
    } else {
      var k', q' := AfterNext(es, s, j, tail);
      e := ElementsFound(lib, es.next, s, k', q', depth, tail);
      NextRead(lib, s, k, q, depth, v, j, k', ElementsMean(lib, es.next), e);
    }
  }

  /** The text from the first name on. */
  function FromName(fs: Fields, tail: seq<Byte>): seq<Byte>
    requires !fs.NoField?
  {
    QuotedText(fs.name, fs.mid + ([58] + (fs.pre + FieldValue(fs, tail))))
  }

  /** The text from the first value on, and behind it. */
  function FieldValue(fs: Fields, tail: seq<Byte>): seq<Byte>
    requires !fs.NoField?
  {
    Text(fs.value, Further(fs, tail))
  }

  function Further(fs: Fields, tail: seq<Byte>): seq<Byte>
    requires !fs.NoField?
  {
    fs.behind + (if fs.NextField? then [44] + FieldsText(fs.next, tail) else [125] + tail)
  }

  ghost predicate FromNameAtNow(fs: Fields, s: seq<Byte>, q: nat, tail: seq<Byte>, end: nat, k: int) {
    !fs.NoField? && At(s, q, FromName(fs, tail)) && end == q + |FromName(fs, tail)|
  }

  /** The text from the first name on stands at `q`, with `tail` up to `end`. */
  ghost predicate FromNameAt(fs: Fields, s: seq<Byte>, q: nat, tail: seq<Byte>, end: nat) {
    forall k {:trigger FromNameAtNow(fs, s, q, tail, end, k)} :: FromNameAtNow(fs, s, q, tail, end, k)
  }

  ghost predicate BeginsNow(fs: Fields, tail: seq<Byte>, text: seq<Byte>, w: seq<Byte>, k: int) {
    && !fs.NoField? && text == FieldsText(fs, tail) && w == FromName(fs, tail)
    && text == fs.before + w && w != [] && w[0] == 34 && Blank(fs.before)
  }

  /** The text of the fields is white space and `w`, which begins with the first name. */
  ghost predicate Begins(fs: Fields, tail: seq<Byte>, text: seq<Byte>, w: seq<Byte>) {
    forall k {:trigger BeginsNow(fs, tail, text, w, k)} :: BeginsNow(fs, tail, text, w, k)
  }

  lemma {:induction false} FieldsSplit(fs: Fields, tail: seq<Byte>)
    requires !fs.NoField? && FieldsOk(fs)
    ensures Begins(fs, tail, FieldsText(fs, tail), FromName(fs, tail))
  {
  }

  /** White space, a byte, and fields behind it. */
  lemma {:induction false} FieldsFollow(fs: Fields, s: seq<Byte>, j: nat, behind: seq<Byte>, c: Byte, tail: seq<Byte>, text: seq<Byte>, w: seq<Byte>)
    returns (q: nat)
    requires Begins(fs, tail, text, w) && Blank(behind) && c > 32 && At(s, j, behind + ([c] + text))
    ensures j < |s| && Skip(s, j) == j + |behind| && Skip(s, j) + 1 < |s| && s[Skip(s, j)] == c
    ensures Skip(s, Skip(s, j) + 1) == q < |s| && s[q] == 34 && Skip(s, q) == q
    ensures FromNameAt(fs, s, q, tail, j + |behind| + 1 + |text|)
  {
    assert BeginsNow(fs, tail, text, w, 0);
    q := NameFollows(s, j, behind, c, fs.before, w, text);
    assert FromNameAtNow(fs, s, q, tail, j + |behind| + 1 + |text|, 0);
  }

  lemma {:induction false} NameFollows(s: seq<Byte>, j: nat, behind: seq<Byte>, c: Byte, before: seq<Byte>, w: seq<Byte>, text: seq<Byte>)
    returns (q: nat)
    requires text == before + w && w != [] && w[0] == 34 && Blank(before) && Blank(behind) && c > 32 && At(s, j, behind + ([c] + text))
    ensures j < |s| && Skip(s, j) == j + |behind| && Skip(s, j) + 1 < |s| && s[Skip(s, j)] == c
    ensures Skip(s, Skip(s, j) + 1) == q < |s| && s[q] == 34 && Skip(s, q) == q && At(s, q, w) && q + |w| == j + |behind| + 1 + |text|
  {
    MarkThen(s, j, behind, c, before, w, text);
    q := j + |behind| + 1 + |before|;
    Mark(s, j, behind, c, text);
    AtByte(s, q, w, 0);
  }

  /** A quoted text, a colon between white space, and what is behind it. */
  lemma {:induction false} ColonFound(s: seq<Byte>, q: nat, t: seq<Byte>, mid: seq<Byte>, pre: seq<Byte>, value: seq<Byte>) returns (n: nat, u: nat)
    requires At(s, q, t + (mid + ([58] + (pre + value)))) && Blank(mid) && Blank(pre) && value != [] && value[0] > 32
    ensures At(s, q, t) && n == q + |t| < |s| && Skip(s, n) + 1 < |s| && s[Skip(s, n)] == COLON
    ensures Skip(s, Skip(s, n) + 1) == u && At(s, u, value) && u == q + |t| + |mid| + 1 + |pre|
  {
    AtSplit(s, q, t, mid + ([58] + (pre + value)));
    n := q + |t|;
    Mark(s, n, mid, 58, pre + value);
    SkipTo(s, n + |mid| + 1, pre, value);
    u := n + |mid| + 1 + |pre|;
  }

  /** A name, a colon, and where the value begins. */
  lemma {:induction false} NameFound(fs: Fields, s: seq<Byte>, k: nat, q: nat, tail: seq<Byte>, end: nat) returns (n: nat, u: nat)
    requires !fs.NoField? && FieldsOk(fs) && k < |s| && Skip(s, k) == q && FromNameAt(fs, s, q, tail, end)
    ensures NamedValue(s, k, CString(CharsMean(fs.name)), n, u) && At(s, u, FieldValue(fs, tail))
    ensures u + |FieldValue(fs, tail)| == end
  {
    assert FromNameAtNow(fs, s, q, tail, end, 0);
    TextBegins(fs.value, Further(fs, tail));
    n, u := ColonFound(s, q, [34] + (CharsText(fs.name) + [34]), fs.mid, fs.pre, FieldValue(fs, tail));
    StringFound(s, q, fs.name);
  }

  ghost predicate FurtherAtNow(fs: Fields, s: seq<Byte>, j: nat, tail: seq<Byte>, end: nat, k: int) {
    !fs.NoField? && At(s, j, Further(fs, tail)) && end == j + |Further(fs, tail)|
  }

  /** What is behind the first value stands at `j`, with `tail` up to `end`. */
  ghost predicate FurtherAt(fs: Fields, s: seq<Byte>, j: nat, tail: seq<Byte>, end: nat) {
    forall k {:trigger FurtherAtNow(fs, s, j, tail, end, k)} :: FurtherAtNow(fs, s, j, tail, end, k)
  }

  lemma {:induction false} AfterLastField(fs: Fields, s: seq<Byte>, j: nat, tail: seq<Byte>, end: nat) returns (e: nat)
    requires fs.LastField? && FieldsOk(fs) && FurtherAt(fs, s, j, tail, end)
    ensures j < |s| && Skip(s, j) + 1 == e && e <= |s| && s[e - 1] == CLOSE_OBJECT && At(s, e, tail) && e + |tail| == end
  {
    assert FurtherAtNow(fs, s, j, tail, end, 0);
    Mark(s, j, fs.behind, 125, tail);
    e := j + |fs.behind| + 1;
  }

  lemma {:induction false} AfterNextField(fs: Fields, s: seq<Byte>, j: nat, tail: seq<Byte>, end: nat) returns (k: nat, q: nat)
    requires fs.NextField? && FieldsOk(fs) && FurtherAt(fs, s, j, tail, end)
    ensures j < |s| && Skip(s, j) + 1 == k < |s| && s[k - 1] == COMMA && Skip(s, k) == q && FromNameAt(fs.next, s, q, tail, end)
  {
    assert FurtherAtNow(fs, s, j, tail, end, 0);
    FieldsSplit(fs.next, tail);
    q := FieldsFollow(fs.next, s, j, fs.behind, 44, tail, FieldsText(fs.next, tail), FromName(fs.next, tail));
    k := j + |fs.behind| + 1;
  }

  lemma {:induction false} FurtherNoNumber(fs: Fields, tail: seq<Byte>)
    requires !fs.NoField? && FieldsOk(fs)
    ensures Further(fs, tail) != [] && !InNumbers(Further(fs, tail)[0])
  {
    NoNumber(fs.behind, if fs.NextField? then 44 else 125, if fs.NextField? then FieldsText(fs.next, tail) else tail);
  }

  lemma {:induction false} ObjectOpens(fs: Fields, s: seq<Byte>, i: nat, tail: seq<Byte>) returns (q: nat)
    requires FieldsOk(fs) && At(s, i, Text(TObject(fs), tail)) && tail != []
    ensures i + 1 < |s| && s[i] == OPEN_OBJECT && Skip(s, i + 1) == q < |s| && Skip(s, q) == q
    ensures s[q] == CLOSE_OBJECT <==> fs.NoField?
    ensures fs.NoField? ==> At(s, q + 1, tail) && q + 1 + |tail| == i + |Text(TObject(fs), tail)|
    ensures !fs.NoField? ==> FromNameAt(fs, s, q, tail, i + |Text(TObject(fs), tail)|)
  {
    AtSplit(s, i, [123], FieldsText(fs, tail));
    AtByte(s, i, [123], 0);
    if fs.NoField? {
      Mark(s, i + 1, fs.gap, 125, tail);
      q := i + 1 + |fs.gap|;
    } else {
      assert [] + ([123] + FieldsText(fs, tail)) == [123] + FieldsText(fs, tail);
      FieldsSplit(fs, tail);
      q := FieldsFollow(fs, s, i, [], 123, tail, FieldsText(fs, tail), FromName(fs, tail));
    }
  }

  lemma {:induction false} LastFieldRead(lib: Lib, s: seq<Byte>, k: nat, name: seq<Byte>, n: nat, u: nat, depth: nat, v: Value, j: nat, e: nat)
    requires NamedValue(s, k, name, n, u) && Reads(lib, s, u, depth, Expected(v, j, depth))
    requires j < |s| && Skip(s, j) + 1 == e <= |s| && s[e - 1] == CLOSE_OBJECT
    ensures ReadsMembers(lib, s, k, depth, ExpectedMembers(Member(name, v, NoMember), e, depth))
  {
    assert DepthMembers(Member(name, v, NoMember)) == Depth(v);
    ReadLastMember(lib, s, k, name, n, u, depth, Expected(v, j, depth));
  }

  lemma {:induction false} NextFieldRead(lib: Lib, s: seq<Byte>, k: nat, name: seq<Byte>, n: nat, u: nat, depth: nat, v: Value, j: nat,
                                         k': nat, more: Members, e: nat)
    requires NamedValue(s, k, name, n, u) && Reads(lib, s, u, depth, Expected(v, j, depth))
    requires j < |s| && Skip(s, j) + 1 == k' < |s| && s[k' - 1] == COMMA && ReadsMembers(lib, s, k', depth, ExpectedMembers(more, e, depth))
    ensures ReadsMembers(lib, s, k, depth, ExpectedMembers(Member(name, v, more), e, depth))
  {
    ReadNextMember(lib, s, k, name, n, u, depth, Expected(v, j, depth), ExpectedMembers(more, e, depth));
  }

  /** The first member: its name and its value. */
  lemma {:induction false} FieldFound(lib: Lib, fs: Fields, s: seq<Byte>, k: nat, q: nat, depth: nat, tail: seq<Byte>, end: nat)
    returns (n: nat, u: nat, j: nat)
    requires LibOk(lib) && Terminated(s) && FieldsOk(fs) && !fs.NoField? && depth <= 1000
    requires k < |s| && Skip(s, k) == q && FromNameAt(fs, s, q, tail, end)
    ensures FieldRead(lib, fs, s, k, depth, n, u, j)
    ensures FurtherAt(fs, s, j, tail, end)
    decreases fs, 0
  {
    n, u := NameFound(fs, s, k, q, tail, end);
    FurtherNoNumber(fs, tail);
    j := ValueFound(lib, fs.value, s, u, depth, Further(fs, tail));
  }

  ghost predicate FieldReadNow(lib: Lib, fs: Fields, s: seq<Byte>, k: nat, depth: nat, n: nat, u: nat, j: nat, i: int) {
    && !fs.NoField? && NamedValue(s, k, CString(CharsMean(fs.name)), n, u)
    && Reads(lib, s, u, depth, Expected(Meaning(lib, fs.value), j, depth))
  }

  /** The first member has been read. */
  ghost predicate FieldRead(lib: Lib, fs: Fields, s: seq<Byte>, k: nat, depth: nat, n: nat, u: nat, j: nat) {
    forall i {:trigger FieldReadNow(lib, fs, s, k, depth, n, u, j, i)} :: FieldReadNow(lib, fs, s, k, depth, n, u, j, i)
  }

  lemma {:induction false} LastFieldFound(lib: Lib, fs: Fields, s: seq<Byte>, k: nat, depth: nat, n: nat, u: nat, j: nat, e: nat)
    requires fs.LastField? && FieldRead(lib, fs, s, k, depth, n, u, j) && j < |s| && Skip(s, j) + 1 == e <= |s| && s[e - 1] == CLOSE_OBJECT
    ensures ReadsMembers(lib, s, k, depth, ExpectedMembers(FieldsMean(lib, fs), e, depth))
  {
    assert FieldReadNow(lib, fs, s, k, depth, n, u, j, 0);
    LastFieldRead(lib, s, k, CString(CharsMean(fs.name)), n, u, depth, Meaning(lib, fs.value), j, e);
  }

  lemma {:induction false} NextFieldFound(lib: Lib, fs: Fields, s: seq<Byte>, k: nat, depth: nat, n: nat, u: nat, j: nat, k': nat, e: nat)
    requires fs.NextField? && FieldRead(lib, fs, s, k, depth, n, u, j) && j < |s| && Skip(s, j) + 1 == k' < |s| && s[k' - 1] == COMMA
    requires ReadsMembers(lib, s, k', depth, ExpectedMembers(FieldsMean(lib, fs.next), e, depth))
    ensures ReadsMembers(lib, s, k, depth, ExpectedMembers(FieldsMean(lib, fs), e, depth))
  {
    assert FieldReadNow(lib, fs, s, k, depth, n, u, j, 0);
    NextFieldRead(lib, s, k, CString(CharsMean(fs.name)), n, u, depth, Meaning(lib, fs.value), j, k', FieldsMean(lib, fs.next), e);
  }

  lemma {:induction false} FieldsFound(lib: Lib, fs: Fields, s: seq<Byte>, k: nat, q: nat, depth: nat, tail: seq<Byte>, end: nat) returns (e: nat)
    requires LibOk(lib) && Terminated(s) && FieldsOk(fs) && !fs.NoField? && depth <= 1000
    requires k < |s| && Skip(s, k) == q && FromNameAt(fs, s, q, tail, end) && tail != []
    ensures ReadsMembers(lib, s, k, depth, ExpectedMembers(FieldsMean(lib, fs), e, depth))
    ensures At(s, e, tail) && e + |tail| == end
    decreases fs, 1
  {
    var n, u, j := FieldFound(lib, fs, s, k, q, depth, tail, end);
    if fs.LastField? {
      e := AfterLastField(fs, s, j, tail, end);
      LastFieldFound(lib, fs, s, k, depth, n, u, j, e);
    } else {
      var k', q' := AfterNextField(fs, s, j, tail, end);
      e := FieldsFound(lib, fs.next, s, k', q', depth, tail, end);
      NextFieldFound(lib, fs, s, k, depth, n, u, j, k', e);
    }
  }

  // ----- whole texts

  /** What is behind a text is behind it. */
  lemma {:induction false} TextTail(t: Tree, a: seq<Byte>, b: seq<Byte>)
    ensures Text(t, a + b) == Text(t, a) + b
    decreases t
  {
    match t
    case TNull => Assoc([110, 117, 108, 108], a, b);
    case TBool(x) => Assoc(if x then [116, 114, 117, 101] else [102, 97, 108, 115, 101], a, b);
    case TNumber(m) => Assoc(TextOf(m), a, b);
    case TLoose(text, _) => Assoc(text, a, b);
    case TString(cs) => Assoc([34] + (CharsText(cs) + [34]), a, b);
    case TArray(es) =>
      ElementsTail(es, a, b);
      Assoc([91], ElementsText(es, a), b);
    case TObject(fs) =>
      FieldsTail(fs, a, b);
      Assoc([123], FieldsText(fs, a), b);
  }

  lemma {:induction false} Assoc(a: seq<Byte>, b: seq<Byte>, c: seq<Byte>)
    ensures a + (b + c) == a + b + c
  {
  }

  lemma {:induction false} ElementsTail(es: Elements, a: seq<Byte>, b: seq<Byte>)
    ensures ElementsText(es, a + b) == ElementsText(es, a) + b
    decreases es
  {
    match es
    case NoElement(gap) =>
      Assoc([93], a, b);
      Assoc(gap, [93] + a, b);
    case LastElement(before, v, behind) =>
      Assoc([93], a, b);
      Assoc(behind, [93] + a, b);
      TextTail(v, behind + ([93] + a), b);
      Assoc(before, Text(v, behind + ([93] + a)), b);
    case NextElement(before, v, behind, next) =>
      ElementsTail(next, a, b);
      Assoc([44], ElementsText(next, a), b);
      Assoc(behind, [44] + ElementsText(next, a), b);
      TextTail(v, behind + ([44] + ElementsText(next, a)), b);
      Assoc(before, Text(v, behind + ([44] + ElementsText(next, a))), b);
  }

  /** The same for what is behind a name. */
  lemma {:induction false} NameTail(before: seq<Byte>, name: seq<Chr>, mid: seq<Byte>, pre: seq<Byte>, w: seq<Byte>, b: seq<Byte>)
    ensures before + QuotedText(name, mid + ([58] + (pre + (w + b)))) == before + QuotedText(name, mid + ([58] + (pre + w))) + b
  {
    Assoc(pre, w, b);
    Assoc([58], pre + w, b);
    Assoc(mid, [58] + (pre + w), b);
    Assoc([34] + (CharsText(name) + [34]), mid + ([58] + (pre + w)), b);
    Assoc(before, QuotedText(name, mid + ([58] + (pre + w))), b);
  }

  lemma {:induction false} FieldsTail(fs: Fields, a: seq<Byte>, b: seq<Byte>)
    ensures FieldsText(fs, a + b) == FieldsText(fs, a) + b
    decreases fs
  {
    match fs
    case NoField(gap) =>
      Assoc([125], a, b);
      Assoc(gap, [125] + a, b);
    case LastField(before, name, mid, pre, v, behind) =>
      Assoc([125], a, b);
      Assoc(behind, [125] + a, b);
      TextTail(v, behind + ([125] + a), b);
      NameTail(before, name, mid, pre, Text(v, behind + ([125] + a)), b);
    case NextField(before, name, mid, pre, v, behind, next) =>
      FieldsTail(next, a, b);
      Assoc([44], FieldsText(next, a), b);
      Assoc(behind, [44] + FieldsText(next, a), b);
      TextTail(v, behind + ([44] + FieldsText(next, a)), b);
      NameTail(before, name, mid, pre, Text(v, behind + ([44] + FieldsText(next, a))), b);
  }

  const BOM: seq<Byte> := [0xEF, 0xBB, 0xBF]

  /** Where the value begins, with a byte order mark and white space in front or not. */
  lemma {:induction false} ValueBegins(s: seq<Byte>, bom: bool, before: seq<Byte>, w: seq<Byte>)
    requires s == (if bom then BOM else []) + (before + w) && Blank(before) && |w| > 1 && w[0] > 32 && w[0] != 0xEF
    ensures Skip(s, SkipBom(s)) == (if bom then 3 else 0) + |before| && At(s, (if bom then 3 else 0) + |before|, w)
  {
    var p := if bom then 3 else 0;
    assert s[p..] == before + w;
    assert AtNow(s, p, before + w, 0);
    SkipTo(s, p, before, w);
    if bom {
      assert s[..3] == BOM;
    } else if before != [] {
      assert s[0] == before[0] && before[0] in before;
      NotMarked(s);
    } else {
      assert s[0] == w[0];
      NotMarked(s);
    }
  }

  lemma {:induction false} NotMarked(s: seq<Byte>)
    requires s != [] && s[0] != 0xEF
    ensures SkipBom(s) == 0
  {
    if |s| > 4 { assert s[..3][0] == s[0]; }
  }

  lemma {:induction false} BlankFirst(w: seq<Byte>)
    requires w != []
    ensures Blank(w) <==> w[0] <= 32 && Blank(w[1..])
  {
    assert w[0] in w;
    forall b <- w[1..] ensures b in w {}
    forall b <- w ensures b == w[0] || b in w[1..] {
      var i :| 0 <= i < |w| && w[i] == b;
      if i > 0 { assert w[1..][i - 1] == b; }
    }
  }

  /** The rest of a text is white space exactly if nothing stops the scan before the terminating zero. */
  lemma {:induction false} RestBlank(s: seq<Byte>, e: nat, behind: seq<Byte>)
    requires At(s, e, behind + [0]) && e + |behind| + 1 == |s|
    ensures e < |s| && (s[Skip(s, e)] == 0 <==> Blank(behind))
    decreases |behind|
  {
    AtByte(s, e, behind + [0], 0);
    if behind != [] {
      assert [behind[0]] + (behind[1..] + [0]) == behind + [0];
      AtSplit(s, e, [behind[0]], behind[1..] + [0]);
      RestBlank(s, e + 1, behind[1..]);
      BlankFirst(behind);
    }
  }

  /** Every text of the grammar, with or without a byte order mark, white space in front and anything behind it, is parsed to
      the value it stands for, exactly if that is nested at most a thousand deep and, where nothing may follow, only white
      space does. */
  lemma {:induction false} TextParsed(lib: Lib, bom: bool, before: seq<Byte>, t: Tree, behind: seq<Byte>, whole: bool)
    requires LibOk(lib) && TreeOk(t) && Blank(before) && (t.TNumber? && behind != [] ==> !InNumbers(behind[0]))
    ensures Parse(lib, (if bom then BOM else []) + (before + Text(t, behind)), whole)
            == if Depth(Meaning(lib, t)) <= 1000 && (whole ==> Blank(behind)) then Some(Meaning(lib, t)) else None
  {
    var text := (if bom then BOM else []) + (before + Text(t, behind));
    var s, w := text + [0], Text(t, behind + [0]);
    TextTail(t, behind, [0]);
    assert s == (if bom then BOM else []) + (before + w);
    TextBegins(t, behind);
    TextBegins(t, behind + [0]);
    assert w[0] == Text(t, behind)[0];
    ValueBegins(s, bom, before, w);
    BytesExactly(0);
    var i := (if bom then 3 else 0) + |before|;
    var e := ValueFound(lib, t, s, i, 0, behind + [0]);
    RestBlank(s, e, behind);
    assert ReadsNow(lib, s, i, 0, Expected(Meaning(lib, t), e, 0), 0);
  }
}
