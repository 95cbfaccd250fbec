module Json {
  import opened AddrTree
  import opened NetUtil
  import opened JsonNumbers

  // ----- values, as the linked lists of items that the library builds

  datatype Value =
    | Null
    | Bool(b: bool)
    | Number(x: real)
    | Str(s: seq<Byte>)
    | Array(items: Items)
    | Object(members: Members)

  datatype Items = NoItem | Item(value: Value, next: Items)

  datatype Members = NoMember | Member(name: seq<Byte>, value: Value, next: Members)

  /** The C library's conversions between text and floating point. `strtod` gives the number and how many bytes it read,
      `sprintf` the text with so many significant digits, and `isDouble` tells the numbers that a `double` can hold. */
  datatype Lib = Lib(strtod: seq<Byte> -> (real, nat), sprintf: (nat, real) -> seq<Byte>, isDouble: real -> bool)

  const NESTING_LIMIT: nat := 1000
  const NUMBER_ROOM: nat := 63
  const INT_MAX: int := 0x7FFF_FFFF
  const INT_MIN: int := -0x8000_0000

  const TAB: Byte := 9
  const LF: Byte := 10
  const SPACE: Byte := 32
  const QUOTE: Byte := 34
  const COMMA: Byte := 44
  const COLON: Byte := 58
  const BACKSLASH: Byte := 92
  const LETTER_U: Byte := 117
  const OPEN_ARRAY: Byte := 91
  const CLOSE_ARRAY: Byte := 93
  const OPEN_OBJECT: Byte := 123
  const CLOSE_OBJECT: Byte := 125
  const MINUS: Byte := 45

  const NULL_TEXT: seq<Byte> := [110, 117, 108, 108]
  const TRUE_TEXT: seq<Byte> := [116, 114, 117, 101]
  const FALSE_TEXT: seq<Byte> := [102, 97, 108, 115, 101]

  // ----- numbers

  function Truncated(x: real): int { if x >= 0.0 then x.Floor else -(-x).Floor }

  /** The integer kept beside the floating-point value. */
  function ValueInt(x: real): int {
    if x >= INT_MAX as real then INT_MAX else if x <= INT_MIN as real then INT_MIN else Truncated(x)
  }

  function Digits(n: nat): (r: seq<Byte>)
    ensures r != [] && forall b <- r :: 48 <= b <= 57
  {
    if n < 10 then [48 + n] else Digits(n / 10) + [48 + n % 10]
  }

  function Decimal(n: int): seq<Byte> { if n < 0 then [MINUS] + Digits(-n) else Digits(n) }

  function Power10(k: nat): nat { if k == 0 then 1 else 10 * Power10(k - 1) }

  lemma {:induction false} DigitsFew(n: nat, k: nat)
    requires n < Power10(k) && k > 0
    ensures |Digits(n)| <= k
  {
    if n >= 10 {
      DigitsFew(n / 10, k - 1);
    }
  }

  lemma {:induction false} DecimalShort(n: int)
    requires INT_MIN <= n <= INT_MAX
    ensures 1 <= |Decimal(n)| <= 11 && (Decimal(n)[0] == MINUS || 48 <= Decimal(n)[0] <= 57)
    ensures forall b <- Decimal(n) :: IsNumeric(b)
  {
    assert Power10(5) == 100000;
    assert Power10(10) == 100000 * Power10(5);
    var m := if n < 0 then -n else n;
    DigitsFew(m, 10);
    assert Digits(m)[0] in Digits(m);
  }

  lemma {:induction false} InRange(x: real)
    ensures INT_MIN <= ValueInt(x) <= INT_MAX
  {
  }

  /** What the C standard says of the two: `strtod` reads no further than the text, and a number of the grammar whole; it
      reads decimal integers and what was written with 17 digits exactly. `sprintf` writes numbers of the grammar, and with 17
      digits or fewer at most 25 characters. */
  ghost predicate LibOk(lib: Lib) {
    forall k {:trigger LibOkNow(lib, k)} :: LibOkNow(lib, k)
  }

  ghost predicate LibOkNow(lib: Lib, k: int) {
    && (forall t :: lib.strtod(t).1 <= |t| && lib.isDouble(lib.strtod(t).0))
    && (forall m {:trigger TextOf(m)} | Grammatical(m) :: lib.strtod(TextOf(m)).1 == |TextOf(m)|)
    && (forall n | INT_MIN <= n <= INT_MAX :: lib.strtod(Decimal(n)) == (n as real, |Decimal(n)|))
    && (forall digits, x :: 0 !in lib.sprintf(digits, x) && |lib.sprintf(digits, x)| <= 25)
    && (forall digits, x | lib.isDouble(x) :: NumberText(lib.sprintf(digits, x)))
    && (forall x | lib.isDouble(x) :: lib.strtod(lib.sprintf(17, x)) == (x, |lib.sprintf(17, x)|))
  }

  lemma {:induction false} StrtodWithin(lib: Lib, t: seq<Byte>)
    requires LibOk(lib)
    ensures lib.strtod(t).1 <= |t|
  {
    assert LibOkNow(lib, 0);
  }

  lemma {:induction false} StrtodWhole(lib: Lib, m: Numeral)
    requires LibOk(lib) && Grammatical(m)
    ensures lib.strtod(TextOf(m)).1 == |TextOf(m)|
  {
    assert LibOkNow(lib, 0);
  }

  lemma {:induction false} SprintfShort(lib: Lib, digits: nat, x: real)
    requires LibOk(lib)
    ensures 0 !in lib.sprintf(digits, x) && |lib.sprintf(digits, x)| <= 25
  {
    assert LibOkNow(lib, 0);
  }

  function Abs(x: real): real { if x < 0.0 then -x else x }

  const DBL_EPSILON: real := 1.0 / 4503599627370496.0

  /** Equal but for the last bits. */
  predicate CompareDouble(a: real, b: real) {
    Abs(a - b) <= (if Abs(a) > Abs(b) then Abs(a) else Abs(b)) * DBL_EPSILON
  }

  /** A number that is its integer is printed as such; any other with 15 digits if that is close enough, and with 17 if not. */
  function PrintNumber(lib: Lib, x: real): seq<Byte> {
    if x == ValueInt(x) as real then Decimal(ValueInt(x))
    else
      var t := lib.sprintf(15, x);
      var (test, n) := lib.strtod(t);
      if n == 0 || !CompareDouble(test, x) then lib.sprintf(17, x) else t
  }

  /** Digits, signs, point and exponent. */
  predicate IsNumeric(b: Byte) { 48 <= b <= 57 || b == 43 || b == 45 || b == 46 || b == 69 || b == 101 }

  /** How many of the next bytes belong to a number. */
  function NumberLen(s: seq<Byte>, i: nat): (n: nat)
    requires i <= |s|
    ensures i + n <= |s|
    ensures forall j | i <= j < i + n :: IsNumeric(s[j])
    decreases |s| - i
  {
    if i == |s| || !IsNumeric(s[i]) then 0 else 1 + NumberLen(s, i + 1)
  }

  function Min(a: nat, b: nat): nat { if a < b then a else b }

  function ParseNumber(lib: Lib, s: seq<Byte>, i: nat): (r: Option<(Value, nat)>)
    requires LibOk(lib) && i <= |s|
    ensures r.Some? ==> i < r.value.1 <= i + NumberLen(s, i)
  {
    StrtodWithin(lib, s[i..i + Min(NumberLen(s, i), NUMBER_ROOM)]);
    var (x, n) := lib.strtod(s[i..i + Min(NumberLen(s, i), NUMBER_ROOM)]);
    if n == 0 then None else Some((Number(x), i + n))
  }

  // ----- strings

  function HexDigit(n: nat): Byte
    requires n < 16
  {
    if n < 10 then 48 + n else 87 + n
  }

  function EscapeByte(b: Byte): seq<Byte> {
    if b == QUOTE || b == BACKSLASH then [BACKSLASH, b]
    else if b >= 32 then [b]
    else if b == 8 then [BACKSLASH, 98]
    else if b == 12 then [BACKSLASH, 102]
    else if b == 10 then [BACKSLASH, 110]
    else if b == 13 then [BACKSLASH, 114]
    else if b == 9 then [BACKSLASH, 116]
    else [BACKSLASH, LETTER_U, 48, 48, HexDigit(b / 16), HexDigit(b % 16)]
  }

  function Escape(str: seq<Byte>): seq<Byte> {
    if str == [] then [] else EscapeByte(str[0]) + Escape(str[1..])
  }

  function PrintString(str: seq<Byte>): seq<Byte> { [QUOTE] + Escape(str) + [QUOTE] }

  function HexValue(b: Byte): (r: Option<nat>)
    ensures r.Some? ==> r.value < 16
  {
    if 48 <= b <= 57 then Some(b - 48) else if 65 <= b <= 70 then Some(b - 55) else if 97 <= b <= 102 then Some(b - 87) else None
  }

  /** Four hexadecimal digits; 0 if one of them is none. */
  function Hex4(s: seq<Byte>, i: nat): (n: nat)
    requires i + 4 <= |s|
    ensures n < 0x1_0000
  {
    match (HexValue(s[i]), HexValue(s[i + 1]), HexValue(s[i + 2]), HexValue(s[i + 3]))
    case (Some(a), Some(b), Some(c), Some(d)) => ((a * 16 + b) * 16 + c) * 16 + d
    case _ => 0
  }

  function Utf8(code: nat): seq<Byte>
    requires code < 0x11_0000
  {
    if code < 0x80 then [code]
    else if code < 0x800 then [0xC0 + code / 64, 0x80 + code % 64]
    else if code < 0x1_0000 then [0xE0 + code / 64 / 64, 0x80 + code / 64 % 64, 0x80 + code % 64]
    else [0xF0 + code / 64 / 64 / 64, 0x80 + code / 64 / 64 % 64, 0x80 + code / 64 % 64, 0x80 + code % 64]
  }

  /** A literal of one or two groups of four digits: the code point and the number of bytes read. */
  function Utf16(s: seq<Byte>, i: nat, end: nat): (r: Option<(nat, nat)>)
    requires i <= end <= |s|
    ensures r.Some? ==> r.value.0 < 0x11_0000 && (r.value.1 == 6 || r.value.1 == 12) && i + r.value.1 <= end
    ensures r.Some? ==> (r.value.1 == 6 <==> r.value.0 < 0x1_0000)
  {
    if end - i < 6 then None
    else
      var first := Hex4(s, i + 2);
      if 0xDC00 <= first <= 0xDFFF then None
      else if 0xD800 <= first <= 0xDBFF then
        if end - (i + 6) < 6 || s[i + 6] != BACKSLASH || s[i + 7] != LETTER_U then None
        else
          var second := Hex4(s, i + 8);
          if second < 0xDC00 || second > 0xDFFF then None
          else Some((0x1_0000 + (first - 0xD800) * 0x400 + (second - 0xDC00), 12))
      else Some((first, 6))
  }

  /** What one escape sequence stands for, and its length. */
  function Unescaped(s: seq<Byte>, i: nat, end: nat): (r: Option<(seq<Byte>, nat)>)
    requires i < end < |s|
    ensures r.Some? ==> r.value.1 >= 2
  {
    var c := s[i + 1];
    if c == 98 then Some(([8], 2))
    else if c == 102 then Some(([12], 2))
    else if c == 110 then Some(([10], 2))
    else if c == 114 then Some(([13], 2))
    else if c == 116 then Some(([9], 2))
    else if c == QUOTE || c == BACKSLASH || c == 47 then Some(([c], 2))
    else if c == LETTER_U then
      match Utf16(s, i, end)
      case None => None
      case Some((code, n)) => Some((Utf8(code), n))
    else None
  }

  /** The bytes between `i` and `end` with their escape sequences replaced. */
  function Unescape(s: seq<Byte>, i: nat, end: nat): Option<seq<Byte>>
    requires end < |s|
    decreases end - i
  {
    if i >= end then Some([])
    else if s[i] != BACKSLASH then Before([s[i]], Unescape(s, i + 1, end))
    else
      match Unescaped(s, i, end)
      case None => None
      case Some((b, n)) => Before(b, Unescape(s, i + n, end))
  }

  function Before(b: seq<Byte>, r: Option<seq<Byte>>): Option<seq<Byte>> {
    match r
    case None => None
    case Some(out) => Some(b + out)
  }

  /** The closing quote; a backslash hides the byte behind it. */
  function Scan(s: seq<Byte>, i: nat): (r: Option<nat>)
    ensures r.Some? ==> i <= r.value < |s| && s[r.value] == QUOTE
    decreases |s| - i
  {
    if i >= |s| then None
    else if s[i] == QUOTE then Some(i)
    else if s[i] == BACKSLASH then if i + 1 >= |s| then None else Scan(s, i + 2)
    else Scan(s, i + 1)
  }

  /** A string ends for its readers at the first zero byte. */
  function CString(b: seq<Byte>): seq<Byte> {
    if b == [] || b[0] == 0 then [] else [b[0]] + CString(b[1..])
  }

  function ParseString(s: seq<Byte>, i: nat): (r: Option<(seq<Byte>, nat)>)
    requires i < |s|
    ensures r.Some? ==> i + 1 < r.value.1 <= |s| && s[r.value.1 - 1] == QUOTE
  {
    if s[i] != QUOTE then None
    else
      match Scan(s, i + 1)
      case None => None
      case Some(end) =>
        match Unescape(s, i + 1, end)
        case None => None
        case Some(out) => Some((CString(out), end + 1))
  }

  // ----- printing

  function Optional(format: bool, b: Byte): seq<Byte> { if format then [b] else [] }

  function Tabs(format: bool, depth: nat): seq<Byte> { if format then seq(depth, _ => TAB) else [] }

  /** The text of a value at nesting depth `depth`, formatted or not. */
  function Print(lib: Lib, v: Value, depth: nat, format: bool): seq<Byte>
    decreases v
  {
    match v
    case Null => NULL_TEXT
    case Bool(b) => if b then TRUE_TEXT else FALSE_TEXT
    case Number(x) => PrintNumber(lib, x)
    case Str(s) => PrintString(s)
    case Array(items) => [OPEN_ARRAY] + (PrintItems(lib, items, depth + 1, format) + [CLOSE_ARRAY])
    case Object(ms) =>
      [OPEN_OBJECT] + (Optional(format, LF) + (PrintMembers(lib, ms, depth + 1, format) + Closing(format, depth + 1)))
  }

  /** The end of an object whose members are at nesting depth `depth`. */
  function Closing(format: bool, depth: nat): seq<Byte>
    requires depth > 0
  {
    Tabs(format, depth - 1) + [CLOSE_OBJECT]
  }

  function PrintItems(lib: Lib, items: Items, depth: nat, format: bool): seq<Byte>
    decreases items
  {
    match items
    case NoItem => []
    case Item(v, next) =>
      Print(lib, v, depth, format)
      + (if next.Item? then [COMMA] + (Optional(format, SPACE) + PrintItems(lib, next, depth, format)) else [])
  }

  function PrintMembers(lib: Lib, ms: Members, depth: nat, format: bool): seq<Byte>
    decreases ms, 1
  {
    match ms
    case NoMember => []
    case Member(name, v, _) =>
      Tabs(format, depth) + (PrintString(name) + ([COLON] + (Optional(format, TAB)
        + (Print(lib, v, depth, format) + MemberTail(lib, ms, depth, format)))))
  }

  /** What follows the value of a member. */
  function MemberTail(lib: Lib, ms: Members, depth: nat, format: bool): seq<Byte>
    requires ms.Member?
    decreases ms, 0
  {
    if ms.next.Member? then [COMMA] + (Optional(format, LF) + PrintMembers(lib, ms.next, depth, format)) else Optional(format, LF)
  }

  // ----- parsing

  /** The text with its terminating zero. */
  predicate Terminated(s: seq<Byte>) { s != [] && s[|s| - 1] == 0 }

  predicate White(b: Byte) { b <= 32 }

  /** The first byte that is no white space; the last byte if there is none. */
  function Skip(s: seq<Byte>, i: nat): (j: nat)
    requires i < |s|
    ensures i <= j < |s|
    decreases |s| - i
  {
    if White(s[i]) && i + 1 < |s| then Skip(s, i + 1) else i
  }

  /** `t` stands at `i`. */
  predicate StartsAt(s: seq<Byte>, i: nat, t: seq<Byte>) { i + |t| <= |s| && s[i..i + |t|] == t }

  function ParseValue(lib: Lib, s: seq<Byte>, i: nat, depth: nat): (r: Option<(Value, nat)>)
    requires LibOk(lib) && Terminated(s) && i < |s|
    ensures r.Some? ==> i < r.value.1 < |s|
    decreases |s| - i, 1
  {
    if StartsAt(s, i, NULL_TEXT) then Some((Null, i + 4))
    else if StartsAt(s, i, FALSE_TEXT) then Some((Bool(false), i + 5))
    else if StartsAt(s, i, TRUE_TEXT) then Some((Bool(true), i + 4))
    else if s[i] == QUOTE then
      match ParseString(s, i)
      case None => None
      case Some((str, e)) => Some((Str(str), e))
    else if s[i] == MINUS || 48 <= s[i] <= 57 then ParseNumber(lib, s, i)
    else if s[i] == OPEN_ARRAY then ParseArray(lib, s, i, depth)
    else if s[i] == OPEN_OBJECT then ParseObject(lib, s, i, depth)
    else None
  }

  function ParseArray(lib: Lib, s: seq<Byte>, i: nat, depth: nat): (r: Option<(Value, nat)>)
    requires LibOk(lib) && Terminated(s) && i < |s| && s[i] == OPEN_ARRAY
    ensures r.Some? ==> i < r.value.1 < |s|
    decreases |s| - i, 0
  {
    if depth >= NESTING_LIMIT then None
    else
      var j := Skip(s, i + 1);
      if s[j] == CLOSE_ARRAY then Some((Array(NoItem), j + 1))
      else
        match ParseItems(lib, s, j, depth + 1)
        case None => None
        case Some((items, e)) => Some((Array(items), e))
  }

  /** The items from `k` on, and the end behind the closing bracket. */
  function ParseItems(lib: Lib, s: seq<Byte>, k: nat, depth: nat): (r: Option<(Items, nat)>)
    requires LibOk(lib) && Terminated(s) && k < |s|
    ensures r.Some? ==> k < r.value.1 < |s|
    decreases |s| - k, 2
  {
    match ParseValue(lib, s, Skip(s, k), depth)
    case None => None
    case Some((v, e)) =>
      var j := Skip(s, e);
      if s[j] == COMMA then
        match ParseItems(lib, s, j + 1, depth)
        case None => None
        case Some((next, end)) => Some((Item(v, next), end))
      else if s[j] == CLOSE_ARRAY then Some((Item(v, NoItem), j + 1))
      else None
  }

  function ParseObject(lib: Lib, s: seq<Byte>, i: nat, depth: nat): (r: Option<(Value, nat)>)
    requires LibOk(lib) && Terminated(s) && i < |s| && s[i] == OPEN_OBJECT
    ensures r.Some? ==> i < r.value.1 < |s|
    decreases |s| - i, 0
  {
    if depth >= NESTING_LIMIT then None
    else
      var j := Skip(s, i + 1);
      if s[j] == CLOSE_OBJECT then Some((Object(NoMember), j + 1))
      else
        match ParseMembers(lib, s, j, depth + 1)
        case None => None
        case Some((ms, e)) => Some((Object(ms), e))
  }

  /** A name, a colon, a value. */
  function ParseMember(lib: Lib, s: seq<Byte>, k: nat, depth: nat): (r: Option<(seq<Byte>, Value, nat)>)
    requires LibOk(lib) && Terminated(s) && k < |s|
    ensures r.Some? ==> k < r.value.2 < |s|
    decreases |s| - k, 2
  {
    match ParseString(s, Skip(s, k))
    case None => None
    case Some((name, n)) =>
      var c := Skip(s, n);
      if s[c] != COLON then None
      else
        match ParseValue(lib, s, Skip(s, c + 1), depth)
        case None => None
        case Some((v, e)) => Some((name, v, e))
  }

  function ParseMembers(lib: Lib, s: seq<Byte>, k: nat, depth: nat): (r: Option<(Members, nat)>)
    requires LibOk(lib) && Terminated(s) && k < |s|
    ensures r.Some? ==> k < r.value.1 < |s|
    decreases |s| - k, 3
  {
    match ParseMember(lib, s, k, depth)
    case None => None
    case Some((name, v, e)) =>
      var j := Skip(s, e);
      if s[j] == COMMA then
        match ParseMembers(lib, s, j + 1, depth)
        case None => None
        case Some((next, end)) => Some((Member(name, v, next), end))
      else if s[j] == CLOSE_OBJECT then Some((Member(name, v, NoMember), j + 1))
      else None
  }

  /** A byte order mark in front of a text of at least two more bytes is skipped. */
  function SkipBom(s: seq<Byte>): nat { if |s| > 4 && s[..3] == [0xEF, 0xBB, 0xBF] then 3 else 0 }

  /** The value of a text, which is followed by its terminating zero in memory; with `whole`, nothing else may follow it. */
  function Parse(lib: Lib, text: seq<Byte>, whole: bool): Option<Value>
    requires LibOk(lib)
  {
    var s := text + [0];
    match ParseValue(lib, s, Skip(s, SkipBom(s)), 0)
    case None => None
    case Some((v, e)) => if whole && s[Skip(s, e)] != 0 then None else Some(v)
  }
}
