module JsonRoundTrip {
  import opened AddrTree
  import opened NetUtil
  import opened JsonNumbers
  import opened Json
  import opened JsonReading
  import opened JsonGrammar

  // ----- values that can be printed and read again

  /** Numbers are doubles, and strings hold no zero byte. */
  ghost predicate Valid(lib: Lib, v: Value) {
    match v
    case Number(x) => lib.isDouble(x)
    case Str(s) => 0 !in s
    case Array(items) => ValidItems(lib, items)
    case Object(ms) => ValidMembers(lib, ms)
    case _ => true
  }

  ghost predicate ValidItems(lib: Lib, items: Items) { items.Item? ==> Valid(lib, items.value) && ValidItems(lib, items.next) }

  ghost predicate ValidMembers(lib: Lib, ms: Members) {
    ms.Member? ==> 0 !in ms.name && Valid(lib, ms.value) && ValidMembers(lib, ms.next)
  }

  // ----- what comes back of a number

  /** With its 15 digits the number is read as another one, which passes for it. */
  predicate Rounds(lib: Lib, x: real) {
    && x != ValueInt(x) as real
    && var (test, n) := lib.strtod(lib.sprintf(15, x));
       n > 0 && test != x && CompareDouble(test, x)
  }

  function Returned(lib: Lib, x: real): real { if Rounds(lib, x) then lib.strtod(lib.sprintf(15, x)).0 else x }

  /** A value with the numbers that come back. */
  function Rounded(lib: Lib, v: Value): Value {
    match v
    case Number(x) => Number(Returned(lib, x))
    case Array(items) => Array(RoundedItems(lib, items))
    case Object(ms) => Object(RoundedMembers(lib, ms))
    case _ => v
  }

  function RoundedItems(lib: Lib, items: Items): Items {
    if items.NoItem? then NoItem else Item(Rounded(lib, items.value), RoundedItems(lib, items.next))
  }

  function RoundedMembers(lib: Lib, ms: Members): Members {
    if ms.NoMember? then NoMember else Member(ms.name, Rounded(lib, ms.value), RoundedMembers(lib, ms.next))
  }

  ghost predicate Lossless(lib: Lib, v: Value) {
    match v
    case Number(x) => !Rounds(lib, x)
    case Array(items) => LosslessItems(lib, items)
    case Object(ms) => LosslessMembers(lib, ms)
    case _ => true
  }

  ghost predicate LosslessItems(lib: Lib, items: Items) { items.Item? ==> Lossless(lib, items.value) && LosslessItems(lib, items.next) }

  ghost predicate LosslessMembers(lib: Lib, ms: Members) { ms.Member? ==> Lossless(lib, ms.value) && LosslessMembers(lib, ms.next) }

  lemma {:induction false} RoundedExactly(lib: Lib, v: Value)
    ensures Rounded(lib, v) == v <==> Lossless(lib, v)
    ensures Depth(Rounded(lib, v)) == Depth(v)
    decreases v
  {
    match v
    case Array(items) => RoundedItemsExactly(lib, items);
    case Object(ms) => RoundedMembersExactly(lib, ms);
    case _ =>
  }

  lemma {:induction false} RoundedItemsExactly(lib: Lib, items: Items)
    ensures RoundedItems(lib, items) == items <==> LosslessItems(lib, items)
    ensures DepthItems(RoundedItems(lib, items)) == DepthItems(items)
    decreases items
  {
    if items.Item? {
      RoundedExactly(lib, items.value);
      RoundedItemsExactly(lib, items.next);
    }
  }

  lemma {:induction false} RoundedMembersExactly(lib: Lib, ms: Members)
    ensures RoundedMembers(lib, ms) == ms <==> LosslessMembers(lib, ms)
    ensures DepthMembers(RoundedMembers(lib, ms)) == DepthMembers(ms)
    decreases ms
  {
    if ms.Member? {
      RoundedExactly(lib, ms.value);
      RoundedMembersExactly(lib, ms.next);
    }
  }

  /** The comparison of floating-point numbers: a difference of at most a 2^52nd of the larger one does not count. */
  lemma {:induction false} CloseExactly(a: real, b: real)
    ensures CompareDouble(a, b) <==>
              (Abs(a - b) * 4503599627370496.0 <= Abs(a) || Abs(a - b) * 4503599627370496.0 <= Abs(b))
  {
  }

  /** A number comes back, or one that differs from it by a relative 2^-52 at most. */
  lemma {:induction false} ReturnedClose(lib: Lib, x: real)
    ensures CompareDouble(Returned(lib, x), x)
  {
  }

  // ----- numbers as texts of the grammar

  lemma {:induction false} DigitsForm(n: nat)
    ensures AllDigits(Digits(n)) && (Digits(n)[0] == 48 <==> n == 0) && (n == 0 ==> |Digits(n)| == 1) && DigitsValue(Digits(n)) == n
  {
    if n >= 10 {
      DigitsForm(n / 10);
      var t := Digits(n);
      assert t[..|t| - 1] == Digits(n / 10);
    } else {
      assert DigitsValue([48 + n][..0]) == 0;
    }
  }

  /** The decimal text of an integer is a number of the grammar, and its digits give the integer. */
  lemma {:induction false} DecimalMeans(n: int) returns (m: Numeral)
    ensures Grammatical(m) && TextOf(m) == Decimal(n) && m.fraction.None? && m.exponent.None?
    ensures m.minus == (n < 0) && DigitsValue(m.whole) == if n < 0 then -n else n
  {
    var d := if n < 0 then -n else n;
    DigitsForm(d);
    m := Numeral(n < 0, Digits(d), None, None);
    assert TextOf(m) == Decimal(n);
  }

  /** An integer in the range of an int is printed in decimal. */
  lemma {:induction false} IntegerPrints(lib: Lib, n: int)
    requires -0x8000_0000 <= n <= 0x7FFF_FFFF
    ensures PrintNumber(lib, n as real) == Decimal(n)
  {
    assert ValueInt(n as real) == n;
  }

  /** What is printed is a number of the grammar that `strtod` reads as the number returned. */
  lemma {:induction false} PrintedNumeral(lib: Lib, x: real) returns (m: Numeral)
    requires LibOk(lib) && lib.isDouble(x)
    ensures Grammatical(m) && TextOf(m) == PrintNumber(lib, x) && |TextOf(m)| <= 25 && lib.strtod(TextOf(m)).0 == Returned(lib, x)
  {
    assert LibOkNow(lib, 0);
    if x == ValueInt(x) as real {
      InRange(x);
      DecimalShort(ValueInt(x));
      m := DecimalMeans(ValueInt(x));
    } else {
      var digits := if PrintNumber(lib, x) == lib.sprintf(15, x) then 15 else 17;
      assert NumberText(lib.sprintf(digits, x));
      m :| Grammatical(m) && TextOf(m) == lib.sprintf(digits, x);
    }
  }

  ghost predicate Writes(lib: Lib, x: real, m: Numeral)
    requires LibOk(lib)
  {
    Grammatical(m) && TextOf(m) == PrintNumber(lib, x) && |TextOf(m)| <= 25 && lib.strtod(TextOf(m)).0 == Returned(lib, x)
  }

  lemma {:induction false} SomeNumeral(lib: Lib, x: real)
    requires LibOk(lib) && lib.isDouble(x)
    ensures exists m :: Writes(lib, x, m)
  {
    var m := PrintedNumeral(lib, x);
    assert Writes(lib, x, m);
  }

  ghost function NumeralFor(lib: Lib, x: real): (m: Numeral)
    requires LibOk(lib) && lib.isDouble(x)
    ensures Writes(lib, x, m)
  {
    SomeNumeral(lib, x);
    var m :| Writes(lib, x, m);
    m
  }

  // ----- there are such conversions

  lemma {:induction false} DecimalUnique(n: int, m: int)
    requires Decimal(n) == Decimal(m)
    ensures n == m
  {
    DigitsForm(if n < 0 then -n else n);
    DigitsForm(if m < 0 then -m else m);
    var a, b := Digits(if n < 0 then -n else n), Digits(if m < 0 then -m else m);
    assert a[0] in a && b[0] in b;
    assert n < 0 ==> Decimal(n)[1..] == a;
    assert m < 0 ==> Decimal(m)[1..] == b;
  }

  ghost predicate IsInt(n: int, t: seq<Byte>) { INT_MIN <= n <= INT_MAX && Decimal(n) == t }

  /** The integer that a text is the decimal form of, or 0. */
  ghost function IntOf(t: seq<Byte>): (n: int)
    ensures INT_MIN <= n <= INT_MAX
    ensures forall m :: IsInt(m, t) ==> n == m
  {
    if m :| IsInt(m, t) then
      assert forall k :: IsInt(k, t) ==> k == m by {
        forall k | IsInt(k, t) ensures k == m { DecimalUnique(k, m); }
      }
      m
    else 0
  }

  /** What is asked of the C library can be had, for integers at least. */
  lemma {:induction false} LibExists() returns (lib: Lib)
    ensures LibOk(lib) && forall x: real {:trigger lib.isDouble(x)} :: INT_MIN <= x.Floor <= INT_MAX && x == x.Floor as real ==> lib.isDouble(x)
  {
    lib := Lib((t: seq<Byte>) => (IntOf(t) as real, |t|), (digits: nat, x: real) => Decimal(if INT_MIN <= x.Floor <= INT_MAX then x.Floor else 0),
               (x: real) => INT_MIN <= x.Floor <= INT_MAX && x == x.Floor as real);
    forall k ensures LibOkNow(lib, k) {
      forall n | INT_MIN <= n <= INT_MAX ensures lib.strtod(Decimal(n)) == (n as real, |Decimal(n)|) { assert IsInt(n, Decimal(n)); }
      forall digits, x ensures 0 !in lib.sprintf(digits, x) && |lib.sprintf(digits, x)| <= 25 && NumberText(lib.sprintf(digits, x)) {
        var n := if INT_MIN <= x.Floor <= INT_MAX then x.Floor else 0;
        DecimalShort(n);
        var m := DecimalMeans(n);
      }
    }
  }

  // ----- strings as texts of the grammar

  function ChrFor(b: Byte): Chr {
    if b == 34 || b == 92 then Short(b)
    else if b >= 32 then Plain(b)
    else if b == 8 then Short(98)
    else if b == 12 then Short(102)
    else if b == 10 then Short(110)
    else if b == 13 then Short(114)
    else if b == 9 then Short(116)
    else Unicode([48, 48, HexDigit(b / 16), HexDigit(b % 16)], b)
  }

  lemma {:induction false} ChrForMeans(b: Byte)
    ensures ChrOk(ChrFor(b)) && ChrText(ChrFor(b)) == EscapeByte(b) && ChrMeans(ChrFor(b)) == [b]
  {
    if ChrFor(b).Unicode? {
      var d := [48, 48, HexDigit(b / 16), HexDigit(b % 16)];
      forall k ensures HexForNow(d, b, k) {}
    }
  }

  function CharsFor(str: seq<Byte>): seq<Chr> { if str == [] then [] else [ChrFor(str[0])] + CharsFor(str[1..]) }

  lemma {:induction false} CharsForMean(str: seq<Byte>)
    ensures CharsOk(CharsFor(str)) && CharsText(CharsFor(str)) == Escape(str) && CharsMean(CharsFor(str)) == str
  {
    if str != [] {
      ChrForMeans(str[0]);
      CharsForMean(str[1..]);
      FirstChr(ChrFor(str[0]), CharsFor(str[1..]), CharsFor(str));
      assert [str[0]] + str[1..] == str;
    }
  }

  lemma {:induction false} FirstChr(c: Chr, rest: seq<Chr>, cs: seq<Chr>)
    requires cs == [c] + rest && ChrOk(c) && CharsOk(rest)
    ensures CharsOk(cs) && CharsText(cs) == ChrText(c) + CharsText(rest) && CharsMean(cs) == ChrMeans(c) + CharsMean(rest)
  {
    assert cs[1..] == rest;
  }

  lemma {:induction false} CStringSame(str: seq<Byte>)
    requires 0 !in str
    ensures CString(str) == str
  {
    if str != [] {
      CStringSame(str[1..]);
    }
  }

  lemma {:induction false} ScanBack(s: seq<Byte>, i: nat, str: seq<Byte>)
    requires At(s, i, Escape(str) + [QUOTE])
    ensures Scan(s, i) == Some(i + |Escape(str)|)
  {
    CharsForMean(str);
    AtSplit(s, i, Escape(str), [QUOTE]);
    AtByte(s, i + |Escape(str)|, [QUOTE], 0);
    CharsFound(s, i, CharsFor(str), i + |Escape(str)|);
  }

  /** Unescaping undoes escaping. */
  lemma {:induction false} UnescapeBack(s: seq<Byte>, i: nat, str: seq<Byte>, end: nat)
    requires At(s, i, Escape(str)) && end == i + |Escape(str)| < |s| && s[end] == QUOTE
    ensures Unescape(s, i, end) == Some(str)
  {
    CharsForMean(str);
    CharsFound(s, i, CharsFor(str), end);
  }

  // ----- values as texts of the grammar

  ghost function TreeFor(lib: Lib, v: Value, d: nat, format: bool): Tree
    requires LibOk(lib) && Valid(lib, v)
    decreases v
  {
    match v
    case Null => TNull
    case Bool(b) => TBool(b)
    case Number(x) => TNumber(NumeralFor(lib, x))
    case Str(s) => TString(CharsFor(s))
    case Array(items) => TArray(ElementsFor(lib, items, d + 1, format, []))
    case Object(ms) => TObject(FieldsFor(lib, ms, d + 1, format))
  }

  ghost function ElementsFor(lib: Lib, items: Items, d: nat, format: bool, before: seq<Byte>): Elements
    requires LibOk(lib) && ValidItems(lib, items)
    decreases items
  {
    match items
    case NoItem => NoElement([])
    case Item(v, NoItem) => LastElement(before, TreeFor(lib, v, d, format), [])
    case Item(v, next) => NextElement(before, TreeFor(lib, v, d, format), [], ElementsFor(lib, next, d, format, Optional(format, SPACE)))
  }

  ghost function FieldsFor(lib: Lib, ms: Members, d: nat, format: bool): Fields
    requires LibOk(lib) && ValidMembers(lib, ms) && d > 0
    decreases ms
  {
    var line := Optional(format, LF) + Tabs(format, d);
    match ms
    case NoMember => NoField(Optional(format, LF) + Tabs(format, d - 1))
    case Member(name, v, NoMember) =>
      LastField(line, CharsFor(name), [], Optional(format, TAB), TreeFor(lib, v, d, format), Optional(format, LF) + Tabs(format, d - 1))
    case Member(name, v, next) =>
      NextField(line, CharsFor(name), [], Optional(format, TAB), TreeFor(lib, v, d, format), [], FieldsFor(lib, next, d, format))
  }

  /** The white space of formatted texts: a line feed and a tab for each level around members, a tab behind colons, a space
      between items. Other texts have none. Hexadecimal digits are lower case. */
  lemma {:induction false} Layout(format: bool, d: nat)
    ensures Optional(format, LF) == (if format then [10] else []) && Optional(format, TAB) == (if format then [9] else [])
    ensures Optional(format, SPACE) == (if format then [32] else [])
    ensures forall n: nat | n < 16 :: HexDigit(n) == LOWER[n]
    ensures |Tabs(format, d)| == (if format then d else 0) && forall b <- Tabs(format, d) :: b == 9
  {
  }

  /** The tree of a value is a text of the grammar, and stands for what comes back. */
  lemma {:induction false} TreeMeans(lib: Lib, v: Value, d: nat, format: bool)
    requires LibOk(lib) && Valid(lib, v)
    ensures TreeOk(TreeFor(lib, v, d, format)) && Meaning(lib, TreeFor(lib, v, d, format)) == Rounded(lib, v)
    decreases v
  {
    match v
    case Str(s) =>
      CharsForMean(s);
      CStringSame(s);
    case Array(items) => ElementsForMean(lib, items, d + 1, format, []);
    case Object(ms) => FieldsForMean(lib, ms, d + 1, format);
    case _ =>
  }

  lemma {:induction false} ElementsForMean(lib: Lib, items: Items, d: nat, format: bool, before: seq<Byte>)
    requires LibOk(lib) && ValidItems(lib, items) && Blank(before)
    ensures ElementsOk(ElementsFor(lib, items, d, format, before))
    ensures ElementsMean(lib, ElementsFor(lib, items, d, format, before)) == RoundedItems(lib, items)
    decreases items
  {
    if items.Item? {
      TreeMeans(lib, items.value, d, format);
      if items.next.Item? { ElementsForMean(lib, items.next, d, format, Optional(format, SPACE)); }
    }
  }

  lemma {:induction false} FieldsForMean(lib: Lib, ms: Members, d: nat, format: bool)
    requires LibOk(lib) && ValidMembers(lib, ms) && d > 0
    ensures FieldsOk(FieldsFor(lib, ms, d, format))
    ensures FieldsMean(lib, FieldsFor(lib, ms, d, format)) == RoundedMembers(lib, ms)
    decreases ms
  {
    if ms.Member? {
      CharsForMean(ms.name);
      CStringSame(ms.name);
      TreeMeans(lib, ms.value, d, format);
      if ms.next.Member? { FieldsForMean(lib, ms.next, d, format); }
    }
  }

  /** What is printed is the text of that tree. */
  lemma {:induction false} PrintIs(lib: Lib, v: Value, d: nat, format: bool, tail: seq<Byte>)
    requires LibOk(lib) && Valid(lib, v)
    ensures Print(lib, v, d, format) + tail == Text(TreeFor(lib, v, d, format), tail)
    decreases v, 1
  {
    match v
    case Str(s) => QuotedIs(s);
    case Array(items) =>
      ItemsIs(lib, items, d + 1, format, [], tail);
      ArrayText(PrintItems(lib, items, d + 1, format), tail);
    case Object(ms) =>
      MembersIs(lib, ms, d + 1, format, tail);
      ObjectText(Optional(format, LF), PrintMembers(lib, ms, d + 1, format), Tabs(format, d), tail);
    case _ =>
  }

  lemma {:induction false} ArrayText(t: seq<Byte>, tail: seq<Byte>)
    ensures [OPEN_ARRAY] + (t + [CLOSE_ARRAY]) + tail == [91] + ([] + (t + ([93] + tail)))
  {
  }

  lemma {:induction false} ObjectText(line: seq<Byte>, t: seq<Byte>, close: seq<Byte>, tail: seq<Byte>)
    ensures [OPEN_OBJECT] + (line + (t + (close + [CLOSE_OBJECT]))) + tail == [123] + (line + (t + (close + ([125] + tail))))
  {
  }

  lemma {:induction false} LastText(before: seq<Byte>, t: seq<Byte>, tail: seq<Byte>, x: seq<Byte>)
    requires x == t + ([93] + tail)
    ensures before + (t + [] + ([93] + tail)) == before + x && [] + ([93] + tail) == [93] + tail
  {
  }

  lemma {:induction false} LastItemIs(lib: Lib, items: Items, d: nat, format: bool, before: seq<Byte>, tail: seq<Byte>)
    requires LibOk(lib) && ValidItems(lib, items) && items.Item? && items.next.NoItem?
    requires Print(lib, items.value, d, format) + ([93] + tail) == Text(TreeFor(lib, items.value, d, format), [93] + tail)
    ensures before + (PrintItems(lib, items, d, format) + ([93] + tail)) == ElementsText(ElementsFor(lib, items, d, format, before), tail)
  {
    LastText(before, Print(lib, items.value, d, format), tail, Text(TreeFor(lib, items.value, d, format), [93] + tail));
  }

  lemma {:induction false} NextItemIs(lib: Lib, items: Items, d: nat, format: bool, before: seq<Byte>, tail: seq<Byte>, more: seq<Byte>)
    requires LibOk(lib) && ValidItems(lib, items) && items.Item? && items.next.Item?
    requires more == Optional(format, SPACE) + (PrintItems(lib, items.next, d, format) + ([93] + tail))
    requires more == ElementsText(ElementsFor(lib, items.next, d, format, Optional(format, SPACE)), tail)
    requires Print(lib, items.value, d, format) + ([] + ([44] + more)) == Text(TreeFor(lib, items.value, d, format), [] + ([44] + more))
    ensures before + (PrintItems(lib, items, d, format) + ([93] + tail)) == ElementsText(ElementsFor(lib, items, d, format, before), tail)
  {
    NextText(before, Print(lib, items.value, d, format), Optional(format, SPACE), PrintItems(lib, items.next, d, format), tail, more);
  }

  lemma {:induction false} NextText(before: seq<Byte>, t: seq<Byte>, gap: seq<Byte>, rest: seq<Byte>, tail: seq<Byte>, more: seq<Byte>)
    requires more == gap + (rest + ([93] + tail))
    ensures before + (t + ([COMMA] + (gap + rest)) + ([93] + tail)) == before + (t + ([] + ([44] + more)))
  {
  }

  lemma {:induction false} ItemsIs(lib: Lib, items: Items, d: nat, format: bool, before: seq<Byte>, tail: seq<Byte>)
    requires LibOk(lib) && ValidItems(lib, items) && (items.NoItem? ==> before == [])
    ensures before + (PrintItems(lib, items, d, format) + ([93] + tail)) == ElementsText(ElementsFor(lib, items, d, format, before), tail)
    decreases items, 0
  {
    if items.Item? {
      if items.next.NoItem? {
        PrintIs(lib, items.value, d, format, [93] + tail);
        LastItemIs(lib, items, d, format, before, tail);
      } else {
        var more := ElementsText(ElementsFor(lib, items.next, d, format, Optional(format, SPACE)), tail);
        ItemsIs(lib, items.next, d, format, Optional(format, SPACE), tail);
        PrintIs(lib, items.value, d, format, [] + ([44] + more));
        NextItemIs(lib, items, d, format, before, tail, more);
      }
    }
  }

  /** Everything behind the value of the first member. */
  ghost function Remainder(lib: Lib, ms: Members, d: nat, format: bool, tail: seq<Byte>): seq<Byte>
    requires LibOk(lib) && ValidMembers(lib, ms) && d > 0 && ms.Member?
  {
    if ms.next.NoMember? then Optional(format, LF) + Tabs(format, d - 1) + ([125] + tail)
    else [] + ([44] + FieldsText(FieldsFor(lib, ms.next, d, format), tail))
  }

  lemma {:induction false} RemainderIs(lib: Lib, ms: Members, d: nat, format: bool, tail: seq<Byte>)
    requires LibOk(lib) && ValidMembers(lib, ms) && d > 0 && ms.Member?
    requires ms.next.Member? ==> Optional(format, LF) + (PrintMembers(lib, ms.next, d, format) + (Tabs(format, d - 1) + ([125] + tail)))
                                 == FieldsText(FieldsFor(lib, ms.next, d, format), tail)
    ensures MemberTail(lib, ms, d, format) + (Tabs(format, d - 1) + ([125] + tail)) == Remainder(lib, ms, d, format, tail)
  {
    var line, close := Optional(format, LF), Tabs(format, d - 1) + ([125] + tail);
    if ms.next.Member? {
      CommaText(line, PrintMembers(lib, ms.next, d, format), close);
    }
  }

  lemma {:induction false} CommaText(line: seq<Byte>, more: seq<Byte>, close: seq<Byte>)
    ensures [COMMA] + (line + more) + close == [] + ([44] + (line + (more + close)))
  {
  }

  lemma {:induction false} FirstMemberIs(lib: Lib, ms: Members, d: nat, format: bool, tail: seq<Byte>, end: seq<Byte>)
    requires LibOk(lib) && ValidMembers(lib, ms) && d > 0 && ms.Member? && end == Remainder(lib, ms, d, format, tail)
    requires MemberTail(lib, ms, d, format) + (Tabs(format, d - 1) + ([125] + tail)) == end
    requires Print(lib, ms.value, d, format) + end == Text(TreeFor(lib, ms.value, d, format), end)
    requires PrintString(ms.name) == [34] + (CharsText(CharsFor(ms.name)) + [34])
    ensures Optional(format, LF) + (PrintMembers(lib, ms, d, format) + (Tabs(format, d - 1) + ([125] + tail)))
            == FieldsText(FieldsFor(lib, ms, d, format), tail)
  {
    MemberText(Optional(format, LF), Tabs(format, d), PrintString(ms.name), Optional(format, TAB), Print(lib, ms.value, d, format),
               MemberTail(lib, ms, d, format), Tabs(format, d - 1) + ([125] + tail), end);
  }

  lemma {:induction false} QuotedIs(name: seq<Byte>)
    ensures PrintString(name) == [34] + (CharsText(CharsFor(name)) + [34])
  {
    CharsForMean(name);
  }

  lemma {:induction false} MembersIs(lib: Lib, ms: Members, d: nat, format: bool, tail: seq<Byte>)
    requires LibOk(lib) && ValidMembers(lib, ms) && d > 0
    ensures Optional(format, LF) + (PrintMembers(lib, ms, d, format) + (Tabs(format, d - 1) + ([125] + tail)))
            == FieldsText(FieldsFor(lib, ms, d, format), tail)
    decreases ms, 0
  {
    if ms.NoMember? {
      var line, close := Optional(format, LF), Tabs(format, d - 1);
      assert line + ([] + (close + ([125] + tail))) == (line + close) + ([125] + tail);
    } else {
      if ms.next.Member? { MembersIs(lib, ms.next, d, format, tail); }
      var end := Remainder(lib, ms, d, format, tail);
      RemainderIs(lib, ms, d, format, tail);
      PrintIs(lib, ms.value, d, format, end);
      QuotedIs(ms.name);
      FirstMemberIs(lib, ms, d, format, tail, end);
    }
  }

  lemma {:induction false} MemberText(line: seq<Byte>, tabs: seq<Byte>, name: seq<Byte>, gap: seq<Byte>, t: seq<Byte>, after: seq<Byte>,
                                      close: seq<Byte>, end: seq<Byte>)
    requires after + close == end
    ensures line + (tabs + (name + ([COLON] + (gap + (t + after)))) + close) == (line + tabs) + (name + ([] + ([58] + (gap + (t + end)))))
  {
  }

  // ----- the round trip

  /** The same anywhere in a text and at any depth. */
  lemma {:induction false} ValueBack(lib: Lib, v: Value, s: seq<Byte>, i: nat, depth: nat, d: nat, format: bool, tail: seq<Byte>)
    requires LibOk(lib) && Valid(lib, v) && Terminated(s) && depth <= 1000 && At(s, i, Print(lib, v, d, format) + tail)
    requires tail != [] && !InNumbers(tail[0])
    ensures Reads(lib, s, i, depth, Expected(Rounded(lib, v), i + |Print(lib, v, d, format)|, depth))
  {
    var t := TreeFor(lib, v, d, format);
    TreeMeans(lib, v, d, format);
    PrintIs(lib, v, d, format, tail);
    var e := ValueFound(lib, t, s, i, depth, tail);
  }

  /** A printed value, formatted or not, is read back exactly if its arrays and objects are nested at most a thousand deep. Its
      numbers come back exactly but for those that pass for what their 15 digits are read as. */
  lemma {:induction false} RoundTrip(lib: Lib, v: Value, format: bool, whole: bool)
    requires LibOk(lib) && Valid(lib, v)
    ensures Parse(lib, Print(lib, v, 0, format), whole) == if Depth(v) <= 1000 then Some(Rounded(lib, v)) else None
    ensures Parse(lib, Print(lib, v, 0, format), whole) == Some(v) <==> Depth(v) <= 1000 && Lossless(lib, v)
  {
    var t := TreeFor(lib, v, 0, format);
    TreeMeans(lib, v, 0, format);
    PrintIs(lib, v, 0, format, []);
    RoundedExactly(lib, v);
    TextParsed(lib, false, [], t, [], whole);
    assert [] + ([] + Text(t, [])) == Print(lib, v, 0, format);
  }
}
