/** Whatever the parser takes is a text of the grammar, read a little more loosely: a number is what `strtod` takes of the bytes
    that numbers are made of, and a literal with bytes that are no digits stands for zero. */
module JsonSound {
  import opened AddrTree
  import opened NetUtil
  import opened Json
  import opened JsonReading
  import opened JsonGrammar

  // ----- what is taken beyond the grammar

  /** Every character is one of the grammar, a quote behind a malformed literal, a malformed literal, or at the end a backslash. */
  ghost predicate CharsTaken(cs: seq<Chr>) {
    forall i | 0 <= i < |cs| ::
      ChrOk(cs[i]) || cs[i] == Plain(34) || (cs[i].Broken? && |cs[i].d| == 4) || (cs[i].Cut? && i == |cs| - 1)
  }

  /** `strtod` takes the text, alone or with more bytes of numbers behind it. */
  ghost predicate NumberTaken(lib: Lib, text: seq<Byte>, x: real) {
    exists more {:trigger text + more} ::
      text != [] && |text + more| <= 63 && (forall b <- text + more :: IsNumeric(b)) && lib.strtod(text + more) == (x, |text|)
  }

  ghost predicate TreeTaken(lib: Lib, t: Tree) {
    match t
    case TNumber(_) => false
    case TLoose(text, x) => NumberTaken(lib, text, x) && (text[0] == 45 || 48 <= text[0] <= 57)
    case TString(cs) => CharsTaken(cs)
    case TArray(es) => ElementsTaken(lib, es)
    case TObject(fs) => FieldsTaken(lib, fs)
    case _ => true
  }

  ghost predicate ElementsTaken(lib: Lib, es: Elements) {
    match es
    case NoElement(gap) => Blank(gap)
    case LastElement(before, v, behind) => Blank(before) && TreeTaken(lib, v) && Blank(behind)
    case NextElement(before, v, behind, next) =>
      Blank(before) && TreeTaken(lib, v) && Blank(behind) && !next.NoElement? && ElementsTaken(lib, next)
  }

  ghost predicate FieldsTaken(lib: Lib, fs: Fields) {
    match fs
    case NoField(gap) => Blank(gap)
    case LastField(before, name, mid, pre, v, behind) =>
      Blank(before) && CharsTaken(name) && Blank(mid) && Blank(pre) && TreeTaken(lib, v) && Blank(behind)
    case NextField(before, name, mid, pre, v, behind, next) =>
      Blank(before) && CharsTaken(name) && Blank(mid) && Blank(pre) && TreeTaken(lib, v) && Blank(behind)
      && !next.NoField? && FieldsTaken(lib, next)
  }

  // ----- strings

  /** The digits at `i`, if they are digits. */
  lemma {:induction false} HexSplit(s: seq<Byte>, i: nat) returns (d: seq<Byte>)
    requires i + 4 <= |s|
    ensures d == s[i..i + 4] && |d| == 4 && (HexFor(d, Hex4(s, i)) || Hex4(s, i) == 0)
  {
    d := s[i..i + 4];
    var a, b, c, e := HexValue(s[i]), HexValue(s[i + 1]), HexValue(s[i + 2]), HexValue(s[i + 3]);
    if a.Some? && b.Some? && c.Some? && e.Some? {
      Nibbles(a.value, b.value, c.value, e.value, Hex4(s, i));
      StandsIs(d[0], a.value);
      StandsIs(d[1], b.value);
      StandsIs(d[2], c.value);
      StandsIs(d[3], e.value);
      forall k ensures HexForNow(d, Hex4(s, i), k) {}
    }
  }

  lemma {:induction false} Nibbles(a: nat, b: nat, c: nat, e: nat, code: nat)
    requires a < 16 && b < 16 && c < 16 && e < 16 && code == ((a * 16 + b) * 16 + c) * 16 + e
    ensures code < 0x1_0000 && code / 4096 == a && code / 256 % 16 == b && code / 16 % 16 == c && code % 16 == e
  {
  }

  /** The character at `i`, and where the next one is. */
  lemma {:induction false} ChrSplit(s: seq<Byte>, i: nat, end: nat) returns (c: Chr, j: nat)
    requires i < end < |s| && s[end] == 34 && Unescape(s, i, end).Some?
    ensures i < j <= end && ChrText(c) == s[i..j]
    ensures ChrOk(c) || c == Plain(34) || (c.Broken? && |c.d| == 4) || (c.Cut? && j == end)
    ensures Unescape(s, j, end).Some? && Unescape(s, i, end) == Some(ChrMeans(c) + Unescape(s, j, end).value)
  {
    if s[i] != BACKSLASH {
      c, j := Plain(s[i]), i + 1;
    } else if i + 1 == end {
      c, j := Cut, end;
    } else if s[i + 1] != LETTER_U {
      c, j := Short(s[i + 1]), i + 2;
    } else {
      c, j := LiteralSplit(s, i, end);
    }
  }

  lemma {:induction false} LiteralSplit(s: seq<Byte>, i: nat, end: nat) returns (c: Chr, j: nat)
    requires i + 1 < end < |s| && s[i] == BACKSLASH && s[i + 1] == LETTER_U && Unescaped(s, i, end).Some?
    ensures i < j <= end && ChrText(c) == s[i..j] && (ChrOk(c) || (c.Broken? && |c.d| == 4))
    ensures Unescaped(s, i, end) == Some((ChrMeans(c), j - i))
  {
    var first := Hex4(s, i + 2);
    if 0xD800 <= first <= 0xDBFF {
      c := PairSplit(s, i, end);
      j := i + 12;
    } else {
      c := SingleSplit(s, i, end);
      j := i + 6;
    }
  }

  lemma {:induction false} SingleSplit(s: seq<Byte>, i: nat, end: nat) returns (c: Chr)
    requires i + 1 < end < |s| && s[i] == BACKSLASH && s[i + 1] == LETTER_U && Unescaped(s, i, end).Some?
    requires i + 6 <= |s| && !(0xD800 <= Hex4(s, i + 2) <= 0xDBFF)
    ensures i + 6 <= end && ChrText(c) == s[i..i + 6] && (ChrOk(c) || (c.Broken? && |c.d| == 4))
    ensures Unescaped(s, i, end) == Some((ChrMeans(c), 6))
  {
    var first := Hex4(s, i + 2);
    var d := HexSplit(s, i + 2);
    assert s[i..i + 6] == [92, 117] + d;
    assert Utf16(s, i, end) == Some((first, 6));
    c := if HexFor(d, first) then Unicode(d, first) else Broken(d);
  }

  lemma {:induction false} PairSplit(s: seq<Byte>, i: nat, end: nat) returns (c: Chr)
    requires i + 1 < end < |s| && s[i] == BACKSLASH && s[i + 1] == LETTER_U && Unescaped(s, i, end).Some?
    requires i + 6 <= |s| && 0xD800 <= Hex4(s, i + 2) <= 0xDBFF
    ensures i + 12 <= end && ChrText(c) == s[i..i + 12] && ChrOk(c) && Unescaped(s, i, end) == Some((ChrMeans(c), 12))
  {
    var first, second := Hex4(s, i + 2), Hex4(s, i + 8);
    var d := HexSplit(s, i + 2);
    var e := HexSplit(s, i + 8);
    PairBytes(s, i, d, e);
    c := Pair(d, first, e, second);
  }

  lemma {:induction false} PairBytes(s: seq<Byte>, i: nat, d: seq<Byte>, e: seq<Byte>)
    requires i + 12 <= |s| && s[i] == 92 && s[i + 1] == 117 && s[i + 6] == 92 && s[i + 7] == 117 && d == s[i + 2..i + 6] && e == s[i + 8..i + 12]
    ensures s[i..i + 12] == ([92, 117] + d) + ([92, 117] + e)
  {
  }

  lemma {:induction false} CharsSplit(s: seq<Byte>, i: nat, end: nat) returns (cs: seq<Chr>)
    requires i <= end < |s| && s[end] == 34 && Unescape(s, i, end).Some?
    ensures CharsTaken(cs) && CharsText(cs) == s[i..end] && Unescape(s, i, end) == Some(CharsMean(cs))
    decreases end - i
  {
    if i == end {
      cs := [];
    } else {
      var c, j := ChrSplit(s, i, end);
      var rest := CharsSplit(s, j, end);
      cs := [c] + rest;
      assert cs[1..] == rest && s[i..j] + s[j..end] == s[i..end];
      if c.Cut? { assert rest == [] by { if rest != [] { ChrNotEmpty(rest); } } }
    }
  }

  lemma {:induction false} ChrNotEmpty(cs: seq<Chr>)
    requires cs != []
    ensures CharsText(cs) != []
  {
    assert ChrText(cs[0]) != [];
  }

  lemma {:induction false} Quoting(s: seq<Byte>, i: nat, end: nat, w: seq<Byte>)
    requires i < end < |s| && s[i] == 34 && s[end] == 34 && w == s[i + 1..end]
    ensures s[i..] == ([34] + (w + [34])) + s[end + 1..]
  {
  }

  lemma {:induction false} StringParts(s: seq<Byte>, i: nat, str: seq<Byte>, e: nat) returns (end: nat)
    requires i < |s| && ParseString(s, i) == Some((str, e))
    ensures i < end < |s| && e == end + 1 && s[i] == 34 && s[end] == 34
    ensures Unescape(s, i + 1, end).Some? && str == CString(Unescape(s, i + 1, end).value)
  {
    end := Scan(s, i + 1).value;
  }

  lemma {:induction false} StringSplit(s: seq<Byte>, i: nat, str: seq<Byte>, e: nat) returns (cs: seq<Chr>)
    requires i < |s| && ParseString(s, i) == Some((str, e))
    ensures CharsTaken(cs) && str == CString(CharsMean(cs)) && i < e <= |s| && s[i..] == QuotedText(cs, s[e..])
  {
    var end := StringParts(s, i, str, e);
    cs := CharsSplit(s, i + 1, end);
    Quoting(s, i, end, CharsText(cs));
  }

  // ----- values

  lemma {:induction false} SkipSplit(s: seq<Byte>, i: nat)
    requires i < |s|
    ensures Blank(s[i..Skip(s, i)]) && s[i..] == s[i..Skip(s, i)] + s[Skip(s, i)..]
    decreases |s| - i
  {
    if White(s[i]) && i + 1 < |s| {
      SkipSplit(s, i + 1);
      assert s[i..Skip(s, i)] == [s[i]] + s[i + 1..Skip(s, i)];
    }
  }

  lemma {:induction false} Slices(s: seq<Byte>, i: nat, e: nat, n: nat)
    requires i < e <= i + n <= |s|
    ensures s[i..e] + s[e..i + n] == s[i..i + n] && s[i..] == s[i..e] + s[e..] && s[i..e] != [] && s[i..e][0] == s[i]
  {
  }

  lemma {:induction false} NumberSplit(lib: Lib, s: seq<Byte>, i: nat, v: Value, e: nat) returns (t: Tree)
    requires LibOk(lib) && i < |s| && ParseNumber(lib, s, i) == Some((v, e)) && (s[i] == MINUS || 48 <= s[i] <= 57)
    ensures TreeTaken(lib, t) && Meaning(lib, t) == v && i < e <= |s| && s[i..] == Text(t, s[e..]) && Depth(v) == 0
  {
    var n := Min(NumberLen(s, i), NUMBER_ROOM);
    StrtodWithin(lib, s[i..i + n]);
    Slices(s, i, e, n);
    var text, more := s[i..e], s[e..i + n];
    assert forall b <- text + more :: IsNumeric(b);
    t := TLoose(text, lib.strtod(text + more).0);
    assert NumberTaken(lib, text, t.x);
  }

  lemma {:induction false} WordSplit(s: seq<Byte>, i: nat, w: seq<Byte>)
    requires StartsAt(s, i, w)
    ensures i + |w| <= |s| && s[i..] == w + s[i + |w|..]
  {
  }

  // The results of the parsing functions, taken apart.

  lemma {:induction false} ScalarSplit(lib: Lib, s: seq<Byte>, i: nat, depth: nat, v: Value, e: nat) returns (t: Tree)
    requires LibOk(lib) && Terminated(s) && i < |s| && s[i] != OPEN_ARRAY && s[i] != OPEN_OBJECT
    requires ParseValue(lib, s, i, depth) == Some((v, e))
    ensures TreeTaken(lib, t) && Meaning(lib, t) == v && i < e < |s| && s[i..] == Text(t, s[e..]) && Depth(v) == 0
  {
    if StartsAt(s, i, NULL_TEXT) {
      WordSplit(s, i, NULL_TEXT);
      t := TNull;
    } else if StartsAt(s, i, FALSE_TEXT) {
      WordSplit(s, i, FALSE_TEXT);
      t := TBool(false);
    } else if StartsAt(s, i, TRUE_TEXT) {
      WordSplit(s, i, TRUE_TEXT);
      t := TBool(true);
    } else if s[i] == QUOTE {
      var cs := StringSplit(s, i, v.s, e);
      t := TString(cs);
    } else {
      t := NumberSplit(lib, s, i, v, e);
    }
  }

  lemma {:induction false} ArrayParts(lib: Lib, s: seq<Byte>, i: nat, depth: nat, v: Value, e: nat) returns (j: nat)
    requires Reads(lib, s, i, depth, Some((v, e))) && i < |s| && s[i] == OPEN_ARRAY
    ensures depth < 1000 && v.Array? && i + 1 < |s| && j == Skip(s, i + 1) < |s|
    ensures if s[j] == CLOSE_ARRAY then v.items == NoItem && e == j + 1 else ReadsItems(lib, s, j, depth + 1, Some((v.items, e)))
  {
    assert ReadsNow(lib, s, i, depth, Some((v, e)), 0);
    IsArray(lib, s, i, depth);
    j := Skip(s, i + 1);
  }

  lemma {:induction false} ItemsParts(lib: Lib, s: seq<Byte>, k: nat, depth: nat, items: Items, e: nat) returns (j: nat, m: nat)
    requires ReadsItems(lib, s, k, depth, Some((items, e)))
    ensures k < |s| && items.Item? && Reads(lib, s, Skip(s, k), depth, Some((items.value, j))) && k < j < |s| && m == Skip(s, j)
    ensures if s[m] == COMMA then m + 1 < |s| && ReadsItems(lib, s, m + 1, depth, Some((items.next, e)))
            else s[m] == CLOSE_ARRAY && items.next == NoItem && e == m + 1 < |s|
  {
    assert ReadsItemsNow(lib, s, k, depth, Some((items, e)), 0);
    j := ParseValue(lib, s, Skip(s, k), depth).value.1;
    m := Skip(s, j);
  }

  lemma {:induction false} ObjectParts(lib: Lib, s: seq<Byte>, i: nat, depth: nat, v: Value, e: nat) returns (j: nat)
    requires Reads(lib, s, i, depth, Some((v, e))) && i < |s| && s[i] == OPEN_OBJECT
    ensures depth < 1000 && v.Object? && i + 1 < |s| && j == Skip(s, i + 1) < |s|
    ensures if s[j] == CLOSE_OBJECT then v.members == NoMember && e == j + 1 else ReadsMembers(lib, s, j, depth + 1, Some((v.members, e)))
  {
    assert ReadsNow(lib, s, i, depth, Some((v, e)), 0);
    IsObject(lib, s, i, depth);
    j := Skip(s, i + 1);
  }

  lemma {:induction false} MemberParts(lib: Lib, s: seq<Byte>, k: nat, depth: nat, name: seq<Byte>, v: Value, e: nat) returns (n: nat, c: nat)
    requires ReadsMember(lib, s, k, depth, Some((name, v, e)))
    ensures k < |s| && ParseString(s, Skip(s, k)) == Some((name, n)) && k < n < |s| && c == Skip(s, n) && s[c] == COLON && c + 1 < |s|
    ensures Reads(lib, s, Skip(s, c + 1), depth, Some((v, e)))
  {
    assert ReadsMemberNow(lib, s, k, depth, Some((name, v, e)), 0);
    n := ParseString(s, Skip(s, k)).value.1;
    c := Skip(s, n);
  }

  lemma {:induction false} MembersParts(lib: Lib, s: seq<Byte>, k: nat, depth: nat, ms: Members, e: nat) returns (j: nat, m: nat)
    requires ReadsMembers(lib, s, k, depth, Some((ms, e)))
    ensures k < |s| && ms.Member? && ReadsMember(lib, s, k, depth, Some((ms.name, ms.value, j))) && k < j < |s| && m == Skip(s, j)
    ensures if s[m] == COMMA then m + 1 < |s| && ReadsMembers(lib, s, m + 1, depth, Some((ms.next, e)))
            else s[m] == CLOSE_OBJECT && ms.next == NoMember && e == m + 1 < |s|
  {
    assert ReadsMembersNow(lib, s, k, depth, Some((ms, e)), 0);
    j := ParseMember(lib, s, k, depth).value.2;
    m := Skip(s, j);
  }

  lemma {:induction false} ReadsBeyond(lib: Lib, s: seq<Byte>, i: nat, depth: nat, v: Value, e: nat)
    requires Reads(lib, s, i, depth, Some((v, e)))
    ensures LibOk(lib) && Terminated(s) && i < e < |s|
    ensures ParseValue(lib, s, i, depth) == Some((v, e))
  {
    assert ReadsNow(lib, s, i, depth, Some((v, e)), 0);
  }

  // The trees of the parts, put together. The predicates say of a part where it is; the quantifiers keep them folded.

  ghost predicate GapNow(s: seq<Byte>, p: nat, q: nat, k: int) { p <= q < |s| && Blank(s[p..q]) && s[p..] == s[p..q] + s[q..] }

  /** White space from `p` to `q`. */
  ghost predicate Gap(s: seq<Byte>, p: nat, q: nat) { forall k {:trigger GapNow(s, p, q, k)} :: GapNow(s, p, q, k) }

  ghost predicate IsTextNow(lib: Lib, t: Tree, v: Value, s: seq<Byte>, i: nat, e: nat, depth: nat, k: int) {
    TreeTaken(lib, t) && Meaning(lib, t) == v && i < e < |s| && s[i..] == Text(t, s[e..]) && depth + Depth(v) <= 1000
  }

  /** The text of `t`, which stands for `v`, from `i` to `e`. */
  ghost predicate IsText(lib: Lib, t: Tree, v: Value, s: seq<Byte>, i: nat, e: nat, depth: nat) {
    forall k {:trigger IsTextNow(lib, t, v, s, i, e, depth, k)} :: IsTextNow(lib, t, v, s, i, e, depth, k)
  }

  ghost predicate AreItemsNow(lib: Lib, es: Elements, items: Items, s: seq<Byte>, p: nat, e: nat, depth: nat, k: int) {
    && p < e < |s| && ElementsTaken(lib, es) && !es.NoElement? && ElementsMean(lib, es) == items
    && s[p..] == ElementsText(es, s[e..]) && depth + DepthItems(items) <= 1000
  }

  ghost predicate AreItems(lib: Lib, es: Elements, items: Items, s: seq<Byte>, p: nat, e: nat, depth: nat) {
    forall k {:trigger AreItemsNow(lib, es, items, s, p, e, depth, k)} :: AreItemsNow(lib, es, items, s, p, e, depth, k)
  }

  ghost predicate AreMembersNow(lib: Lib, fs: Fields, ms: Members, s: seq<Byte>, p: nat, e: nat, depth: nat, k: int) {
    && p < e < |s| && FieldsTaken(lib, fs) && !fs.NoField? && FieldsMean(lib, fs) == ms
    && s[p..] == FieldsText(fs, s[e..]) && depth + DepthMembers(ms) <= 1000
  }

  ghost predicate AreMembers(lib: Lib, fs: Fields, ms: Members, s: seq<Byte>, p: nat, e: nat, depth: nat) {
    forall k {:trigger AreMembersNow(lib, fs, ms, s, p, e, depth, k)} :: AreMembersNow(lib, fs, ms, s, p, e, depth, k)
  }

  /** What a member consists of: everything but what is behind its value. */
  datatype Parts = Parts(before: seq<Byte>, name: seq<Chr>, mid: seq<Byte>, pre: seq<Byte>, value: Tree)

  function PartsText(x: Parts, tail: seq<Byte>): seq<Byte> {
    x.before + QuotedText(x.name, x.mid + ([58] + (x.pre + Text(x.value, tail))))
  }

  ghost predicate IsMemberNow(lib: Lib, x: Parts, name: seq<Byte>, v: Value, s: seq<Byte>, p: nat, e: nat, depth: nat, k: int) {
    && p < e < |s| && Blank(x.before) && CharsTaken(x.name) && Blank(x.mid) && Blank(x.pre) && TreeTaken(lib, x.value)
    && name == CString(CharsMean(x.name)) && Meaning(lib, x.value) == v && s[p..] == PartsText(x, s[e..]) && depth + Depth(v) <= 1000
  }

  ghost predicate IsMember(lib: Lib, x: Parts, name: seq<Byte>, v: Value, s: seq<Byte>, p: nat, e: nat, depth: nat) {
    forall k {:trigger IsMemberNow(lib, x, name, v, s, p, e, depth, k)} :: IsMemberNow(lib, x, name, v, s, p, e, depth, k)
  }

  lemma {:induction false} GapTo(s: seq<Byte>, k: nat)
    requires k < |s|
    ensures Gap(s, k, Skip(s, k)) && k <= Skip(s, k) < |s|
  {
    SkipSplit(s, k);
  }

  /** White space from `p` over `k` to the next byte that is none. */
  lemma {:induction false} GapOn(s: seq<Byte>, p: nat, k: nat)
    requires Gap(s, p, k)
    ensures k < |s| && Gap(s, p, Skip(s, k)) && p <= k <= Skip(s, k) < |s|
  {
    assert GapNow(s, p, k, 0);
    SkipSplit(s, k);
    var q := Skip(s, k);
    assert s[p..q] == s[p..k] + s[k..q];
  }

  lemma {:induction false} NoGap(s: seq<Byte>, k: nat)
    requires k < |s|
    ensures Gap(s, k, k)
  {
  }

  /** White space from `j` to `m`, and the byte there. */
  lemma {:induction false} ByteBehind(s: seq<Byte>, j: nat, m: nat)
    requires Gap(s, j, m)
    ensures j <= m < |s| && Blank(s[j..m]) && s[j..] == s[j..m] + ([s[m]] + s[m + 1..])
  {
    assert GapNow(s, j, m, 0);
    assert s[m..] == [s[m]] + s[m + 1..];
  }

  lemma {:induction false} LastIs(lib: Lib, s: seq<Byte>, p: nat, q: nat, t: Tree, v: Value, j: nat, m: nat, depth: nat) returns (es: Elements)
    requires Gap(s, p, q) && IsText(lib, t, v, s, q, j, depth) && Gap(s, j, m) && m + 1 < |s| && s[m] == CLOSE_ARRAY
    ensures AreItems(lib, es, Item(v, NoItem), s, p, m + 1, depth)
  {
    assert GapNow(s, p, q, 0) && IsTextNow(lib, t, v, s, q, j, depth, 0);
    ByteBehind(s, j, m);
    es := LastElement(s[p..q], t, s[j..m]);
    assert AreItemsNow(lib, es, Item(v, NoItem), s, p, m + 1, depth, 0);
  }

  lemma {:induction false} NextIs(lib: Lib, s: seq<Byte>, p: nat, q: nat, t: Tree, v: Value, j: nat, m: nat, next: Elements, more: Items, e: nat, depth: nat)
    returns (es: Elements)
    requires Gap(s, p, q) && IsText(lib, t, v, s, q, j, depth) && Gap(s, j, m) && m + 1 < |s| && s[m] == COMMA
    requires AreItems(lib, next, more, s, m + 1, e, depth)
    ensures AreItems(lib, es, Item(v, more), s, p, e, depth)
  {
    assert GapNow(s, p, q, 0) && IsTextNow(lib, t, v, s, q, j, depth, 0) && AreItemsNow(lib, next, more, s, m + 1, e, depth, 0);
    ByteBehind(s, j, m);
    es := NextElement(s[p..q], t, s[j..m], next);
    assert AreItemsNow(lib, es, Item(v, more), s, p, e, depth, 0);
  }

  lemma {:induction false} LastFieldIs(lib: Lib, s: seq<Byte>, p: nat, x: Parts, name: seq<Byte>, v: Value, j: nat, m: nat, depth: nat) returns (fs: Fields)
    requires IsMember(lib, x, name, v, s, p, j, depth) && Gap(s, j, m) && m + 1 < |s| && s[m] == CLOSE_OBJECT
    ensures AreMembers(lib, fs, Member(name, v, NoMember), s, p, m + 1, depth)
  {
    assert IsMemberNow(lib, x, name, v, s, p, j, depth, 0);
    ByteBehind(s, j, m);
    fs := LastField(x.before, x.name, x.mid, x.pre, x.value, s[j..m]);
    assert AreMembersNow(lib, fs, Member(name, v, NoMember), s, p, m + 1, depth, 0);
  }

  lemma {:induction false} NextFieldIs(lib: Lib, s: seq<Byte>, p: nat, x: Parts, name: seq<Byte>, v: Value, j: nat, m: nat, next: Fields,
                                       more: Members, e: nat, depth: nat) returns (fs: Fields)
    requires IsMember(lib, x, name, v, s, p, j, depth) && Gap(s, j, m) && m + 1 < |s| && s[m] == COMMA
    requires AreMembers(lib, next, more, s, m + 1, e, depth)
    ensures AreMembers(lib, fs, Member(name, v, more), s, p, e, depth)
  {
    assert IsMemberNow(lib, x, name, v, s, p, j, depth, 0) && AreMembersNow(lib, next, more, s, m + 1, e, depth, 0);
    ByteBehind(s, j, m);
    fs := NextField(x.before, x.name, x.mid, x.pre, x.value, s[j..m], next);
    assert AreMembersNow(lib, fs, Member(name, v, more), s, p, e, depth, 0);
  }

  /** White space, a name, white space, a colon, white space, a value. */
  lemma {:induction false} MemberIs(lib: Lib, s: seq<Byte>, p: nat, q: nat, name: seq<Byte>, n: nat, c: nat, u: nat, t: Tree, v: Value, e: nat, depth: nat)
    returns (x: Parts)
    requires q < |s| && c < |s| && Gap(s, p, q) && ParseString(s, q) == Some((name, n)) && Gap(s, n, c) && s[c] == COLON && Gap(s, c + 1, u)
    requires IsText(lib, t, v, s, u, e, depth)
    ensures IsMember(lib, x, name, v, s, p, e, depth)
  {
    assert GapNow(s, p, q, 0) && GapNow(s, c + 1, u, 0) && IsTextNow(lib, t, v, s, u, e, depth, 0);
    var cs := StringSplit(s, q, name, n);
    ByteBehind(s, n, c);
    x := Parts(s[p..q], cs, s[n..c], s[c + 1..u], t);
    assert IsMemberNow(lib, x, name, v, s, p, e, depth, 0);
  }

  lemma {:induction false} ArrayIs(lib: Lib, s: seq<Byte>, i: nat, es: Elements, items: Items, e: nat, depth: nat) returns (t: Tree)
    requires i < |s| && s[i] == OPEN_ARRAY && AreItems(lib, es, items, s, i + 1, e, depth + 1)
    ensures IsText(lib, t, Array(items), s, i, e, depth)
  {
    assert AreItemsNow(lib, es, items, s, i + 1, e, depth + 1, 0);
    assert s[i..] == [91] + s[i + 1..];
    t := TArray(es);
    assert IsTextNow(lib, t, Array(items), s, i, e, depth, 0);
  }

  lemma {:induction false} EmptyMeans(lib: Lib, gap: seq<Byte>)
    ensures Meaning(lib, TArray(NoElement(gap))) == Array(NoItem) && Depth(Array(NoItem)) == 1
    ensures forall tail :: Text(TArray(NoElement(gap)), tail) == [91] + (gap + ([93] + tail))
  {
    assert ElementsMean(lib, NoElement(gap)) == NoItem;
    assert forall tail :: ElementsText(NoElement(gap), tail) == gap + ([93] + tail);
  }

  lemma {:induction false} BareMeans(lib: Lib, gap: seq<Byte>)
    ensures Meaning(lib, TObject(NoField(gap))) == Object(NoMember) && Depth(Object(NoMember)) == 1
    ensures forall tail :: Text(TObject(NoField(gap)), tail) == [123] + (gap + ([125] + tail))
  {
    assert FieldsMean(lib, NoField(gap)) == NoMember;
    assert forall tail :: FieldsText(NoField(gap), tail) == gap + ([125] + tail);
  }

  lemma {:induction false} EmptyIs(lib: Lib, s: seq<Byte>, i: nat, j: nat, depth: nat) returns (t: Tree)
    requires i < |s| && s[i] == OPEN_ARRAY && Gap(s, i + 1, j) && j + 1 < |s| && s[j] == CLOSE_ARRAY && depth < 1000
    ensures IsText(lib, t, Array(NoItem), s, i, j + 1, depth)
  {
    ByteBehind(s, i + 1, j);
    assert s[i..] == [91] + s[i + 1..];
    t := TArray(NoElement(s[i + 1..j]));
    EmptyMeans(lib, s[i + 1..j]);
    assert IsTextNow(lib, t, Array(NoItem), s, i, j + 1, depth, 0);
  }

  lemma {:induction false} ObjectIs(lib: Lib, s: seq<Byte>, i: nat, fs: Fields, ms: Members, e: nat, depth: nat) returns (t: Tree)
    requires i < |s| && s[i] == OPEN_OBJECT && AreMembers(lib, fs, ms, s, i + 1, e, depth + 1)
    ensures IsText(lib, t, Object(ms), s, i, e, depth)
  {
    assert AreMembersNow(lib, fs, ms, s, i + 1, e, depth + 1, 0);
    assert s[i..] == [123] + s[i + 1..];
    t := TObject(fs);
    assert IsTextNow(lib, t, Object(ms), s, i, e, depth, 0);
  }

  lemma {:induction false} BareIs(lib: Lib, s: seq<Byte>, i: nat, j: nat, depth: nat) returns (t: Tree)
    requires i < |s| && s[i] == OPEN_OBJECT && Gap(s, i + 1, j) && j + 1 < |s| && s[j] == CLOSE_OBJECT && depth < 1000
    ensures IsText(lib, t, Object(NoMember), s, i, j + 1, depth)
  {
    ByteBehind(s, i + 1, j);
    assert s[i..] == [123] + s[i + 1..];
    t := TObject(NoField(s[i + 1..j]));
    BareMeans(lib, s[i + 1..j]);
    assert IsTextNow(lib, t, Object(NoMember), s, i, j + 1, depth, 0);
  }

  /** A value that is read is the text of a tree. */
  lemma {:induction false} ValueSplit(lib: Lib, s: seq<Byte>, i: nat, depth: nat, v: Value, e: nat) returns (t: Tree)
    requires i < |s| && Reads(lib, s, i, depth, Some((v, e))) && depth <= 1000
    ensures IsText(lib, t, v, s, i, e, depth)
    decreases |s| - i, 1
  {
    ReadsBeyond(lib, s, i, depth, v, e);
    if s[i] == OPEN_ARRAY {
      var j := ArrayParts(lib, s, i, depth, v, e);
      GapTo(s, i + 1);
      if s[j] == CLOSE_ARRAY {
        t := EmptyIs(lib, s, i, j, depth);
      } else {
        var es := ItemsSplit(lib, s, i + 1, j, depth + 1, v.items, e);
        t := ArrayIs(lib, s, i, es, v.items, e, depth);
      }
    } else if s[i] == OPEN_OBJECT {
      var j := ObjectParts(lib, s, i, depth, v, e);
      GapTo(s, i + 1);
      if s[j] == CLOSE_OBJECT {
        t := BareIs(lib, s, i, j, depth);
      } else {
        var fs := MembersSplit(lib, s, i + 1, j, depth + 1, v.members, e);
        t := ObjectIs(lib, s, i, fs, v.members, e, depth);
      }
    } else {
      t := ScalarSplit(lib, s, i, depth, v, e);
      assert IsTextNow(lib, t, v, s, i, e, depth, 0);
    }
  }

  /** White space from `p` to `k`, and items from there on. */
  lemma {:induction false} ItemsSplit(lib: Lib, s: seq<Byte>, p: nat, k: nat, depth: nat, items: Items, e: nat) returns (es: Elements)
    requires k < |s| && Gap(s, p, k) && ReadsItems(lib, s, k, depth, Some((items, e))) && depth <= 1000
    ensures AreItems(lib, es, items, s, p, e, depth)
    decreases |s| - k, 2
  {
    var j, m := ItemsParts(lib, s, k, depth, items, e);
    GapOn(s, p, k);
    var t := ValueSplit(lib, s, Skip(s, k), depth, items.value, j);
    GapTo(s, j);
    if s[m] == COMMA {
      NoGap(s, m + 1);
      var next := ItemsSplit(lib, s, m + 1, m + 1, depth, items.next, e);
      es := NextIs(lib, s, p, Skip(s, k), t, items.value, j, m, next, items.next, e, depth);
    } else {
      es := LastIs(lib, s, p, Skip(s, k), t, items.value, j, m, depth);
    }
  }

  /** A name, a colon and a value from `p` on. */
  lemma {:induction false} MemberSplit(lib: Lib, s: seq<Byte>, p: nat, k: nat, depth: nat, name: seq<Byte>, v: Value, e: nat) returns (x: Parts)
    requires k < |s| && Gap(s, p, k) && ReadsMember(lib, s, k, depth, Some((name, v, e))) && depth <= 1000
    ensures IsMember(lib, x, name, v, s, p, e, depth)
    decreases |s| - k, 2
  {
    var n, c := MemberParts(lib, s, k, depth, name, v, e);
    GapOn(s, p, k);
    GapTo(s, n);
    GapTo(s, c + 1);
    var t := ValueSplit(lib, s, Skip(s, c + 1), depth, v, e);
    x := MemberIs(lib, s, p, Skip(s, k), name, n, c, Skip(s, c + 1), t, v, e, depth);
  }

  lemma {:induction false} MembersSplit(lib: Lib, s: seq<Byte>, p: nat, k: nat, depth: nat, ms: Members, e: nat) returns (fs: Fields)
    requires k < |s| && Gap(s, p, k) && ReadsMembers(lib, s, k, depth, Some((ms, e))) && depth <= 1000
    ensures AreMembers(lib, fs, ms, s, p, e, depth)
    decreases |s| - k, 3
  {
    var j, m := MembersParts(lib, s, k, depth, ms, e);
    var x := MemberSplit(lib, s, p, k, depth, ms.name, ms.value, j);
    GapTo(s, j);
    if s[m] == COMMA {
      NoGap(s, m + 1);
      var next := MembersSplit(lib, s, m + 1, m + 1, depth, ms.next, e);
      fs := NextFieldIs(lib, s, p, x, ms.name, ms.value, j, m, next, ms.next, e, depth);
    } else {
      fs := LastFieldIs(lib, s, p, x, ms.name, ms.value, j, m, depth);
    }
  }

  // ----- whole texts

  lemma {:induction false} ParseParts(lib: Lib, text: seq<Byte>, whole: bool, v: Value) returns (p: nat, i: nat, e: nat)
    requires LibOk(lib) && Parse(lib, text, whole) == Some(v)
    ensures var s := text + [0];
            && p == SkipBom(s) && i == Skip(s, p) && p <= i < e < |s| && Reads(lib, s, i, 0, Some((v, e)))
            && (whole ==> s[Skip(s, e)] == 0)
  {
    var s := text + [0];
    p := SkipBom(s);
    i := Skip(s, p);
    e := ParseValue(lib, s, i, 0).value.1;
  }

  /** Whatever is parsed is a value of the grammar, nested at most a thousand deep, behind an optional byte order mark and white
      space; and where nothing may follow, only white space does. */
  lemma {:induction false} OnlyTexts(lib: Lib, text: seq<Byte>, whole: bool, v: Value)
    returns (bom: bool, before: seq<Byte>, t: Tree, behind: seq<Byte>)
    requires LibOk(lib) && Parse(lib, text, whole) == Some(v)
    ensures text == (if bom then BOM else []) + (before + Text(t, behind))
    ensures Blank(before) && TreeTaken(lib, t) && Meaning(lib, t) == v && Depth(v) <= 1000 && (whole ==> Blank(behind))
  {
    var p, i, e := ParseParts(lib, text, whole, v);
    var s := text + [0];
    t := ValueSplit(lib, s, i, 0, v, e);
    assert IsTextNow(lib, t, v, s, i, e, 0, 0);
    GapTo(s, p);
    assert GapNow(s, p, i, 0);
    bom, before, behind := p == 3, s[p..i], text[e..];
    WholeText(text, p, before, i, e, t, behind);
    if whole { BlankBehind(text, e, behind); }
  }

  lemma {:induction false} BlankBehind(text: seq<Byte>, e: nat, behind: seq<Byte>)
    requires e <= |text| && behind == text[e..] && (text + [0])[e..] == behind + [0] && (text + [0])[Skip(text + [0], e)] == 0
    ensures Blank(behind)
  {
    assert AtNow(text + [0], e, behind + [0], 0);
    RestBlank(text + [0], e, behind);
  }

  lemma {:induction false} WholeText(text: seq<Byte>, p: nat, before: seq<Byte>, i: nat, e: nat, t: Tree, behind: seq<Byte>)
    requires var s := text + [0];
             && p == SkipBom(s) && p <= i <= e < |s| && s[p..] == before + s[i..] && s[i..] == Text(t, s[e..]) && behind == text[e..]
    ensures text == (if p == 3 then BOM else []) + (before + Text(t, behind)) && (text + [0])[e..] == behind + [0]
  {
    var s := text + [0];
    assert s[e..] == behind + [0];
    TextTail(t, behind, [0]);
    Front(text, p, before + Text(t, behind));
  }

  lemma {:induction false} Front(text: seq<Byte>, p: nat, w: seq<Byte>)
    requires p == SkipBom(text + [0]) && (text + [0])[p..] == w + [0]
    ensures text == (if p == 3 then BOM else []) + w
  {
    var s := text + [0];
    assert s == s[..p] + (w + [0]);
    Assoc(s[..p], w, [0]);
    Trimmed(text, s[..p] + w);
  }

  lemma {:induction false} Trimmed(a: seq<Byte>, b: seq<Byte>)
    requires a + [0] == b + [0]
    ensures a == b
  {
    assert a == (a + [0])[..|a|] && b == (b + [0])[..|b|];
  }
}
