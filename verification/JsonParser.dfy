module JsonParser {
  import opened AddrTree
  import opened NetUtil
  import opened Json
  import opened JsonReading

  // ----- the room for an unescaped string

  /** How many escape sequences a scan that starts at `i` sees begin before `p`. */
  ghost function Escapes(s: seq<Byte>, i: nat, p: nat): nat
    requires p <= |s|
    decreases |s| - i
  {
    if i >= p then 0 else if s[i] == BACKSLASH then 1 + Escapes(s, i + 2, p) else Escapes(s, i + 1, p)
  }

  /** Of `n` further bytes at most every other one begins an escape sequence, and none if the only one is no backslash. */
  lemma {:induction false} MoreEscapes(s: seq<Byte>, i: nat, p: nat, n: nat)
    requires p + n <= |s|
    ensures Escapes(s, i, p + n) <= Escapes(s, i, p) + (n + 1) / 2
    ensures n == 1 && s[p] != BACKSLASH ==> Escapes(s, i, p + 1) == Escapes(s, i, p)
    decreases |s| - i
  {
    if i < p + n {
      var next := if s[i] == BACKSLASH then i + 2 else i + 1;
      if i < p {
        MoreEscapes(s, next, p, n);
      } else if next <= p + n {
        MoreEscapes(s, next, next, p + n - next);
      }
    }
  }

  /** `n` bytes written for the input up to `p`, which an escape sequence may carry one byte past `end`, leave room for the rest. */
  ghost predicate Room(s: seq<Byte>, start: nat, p: nat, end: nat, n: nat)
    requires end <= |s|
  {
    if p <= end then n + Escapes(s, start, p) <= p - start else p == end + 1 && n + Escapes(s, start, end) <= end - start + 1
  }

  lemma {:induction false} RoomLeft(s: seq<Byte>, start: nat, p: nat, end: nat, n: nat)
    requires start <= p <= end <= |s| && Room(s, start, p, end, n)
    ensures n + Escapes(s, start, end) <= end - start + 1
  {
    MoreEscapes(s, start, p, end - p);
  }

  /** One step of the unescaping loop, `len` bytes read and `w` written, stays within the allocation. */
  lemma {:induction false} RoomStep(s: seq<Byte>, start: nat, p: nat, end: nat, n: nat, len: nat, w: nat)
    requires start <= p < end <= |s| && Room(s, start, p, end, n)
    requires if len == 1 then w == 1 && s[p] != BACKSLASH
             else if len == 2 then w == 1
             else p + len <= end && ((len == 6 && w <= 3) || (len == 12 && w <= 4))
    ensures Room(s, start, p + len, end, n + w) && n + w + Escapes(s, start, end) <= end - start + 1
  {
    MoreEscapes(s, start, p, if p + len <= end then len else 1);
    if p + len <= end { RoomLeft(s, start, p + len, end, n + w); }
  }

  ghost predicate UnescapingNow(s: seq<Byte>, start: nat, p: nat, end: nat, out: seq<Byte>, k: int) {
    end < |s| && Unescape(s, start, end) == Before(out, Unescape(s, p, end))
  }

  /** The loop has come to `p` and written `out`. */
  ghost predicate Unescaping(s: seq<Byte>, start: nat, p: nat, end: nat, out: seq<Byte>) {
    forall k {:trigger UnescapingNow(s, start, p, end, out, k)} :: UnescapingNow(s, start, p, end, out, k)
  }

  lemma {:induction false} UnescapeStart(s: seq<Byte>, start: nat, end: nat)
    requires start <= end < |s|
    ensures Unescaping(s, start, start, end, []) && Room(s, start, start, end, 0)
  {
    BeforeMore([], [], Unescape(s, start, end));
    assert Escapes(s, start, start) == 0;
  }

  lemma {:induction false} BeforeMore(a: seq<Byte>, b: seq<Byte>, r: Option<seq<Byte>>)
    ensures Before(a, Before(b, r)) == Before(a + b, r) && Before([], r) == r
  {
    match r
    case None =>
    case Some(c) => assert a + (b + c) == a + b + c && [] + c == c;
  }

  lemma {:induction false} UnescapeStep(s: seq<Byte>, start: nat, p: nat, end: nat, out: seq<Byte>, b: seq<Byte>, n: nat)
    requires Unescaping(s, start, p, end, out) && p < end < |s|
    requires if s[p] != BACKSLASH then b == [s[p]] && n == 1 else Unescaped(s, p, end) == Some((b, n))
    ensures Unescaping(s, start, p + n, end, out + b)
  {
    assert UnescapingNow(s, start, p, end, out, 0);
    BeforeMore(out, b, Unescape(s, p + n, end));
  }

  lemma {:induction false} UnescapeFails(s: seq<Byte>, start: nat, p: nat, end: nat, out: seq<Byte>)
    requires Unescaping(s, start, p, end, out) && p < end < |s| && s[p] == BACKSLASH && Unescaped(s, p, end).None?
    ensures Unescape(s, start, end) == None
  {
    assert UnescapingNow(s, start, p, end, out, 0);
  }

  lemma {:induction false} UnescapeEnd(s: seq<Byte>, start: nat, p: nat, end: nat, out: seq<Byte>)
    requires Unescaping(s, start, p, end, out) && p >= end
    ensures end < |s| && Unescape(s, start, end) == Some(out)
  {
    assert UnescapingNow(s, start, p, end, out, 0);
    assert out + [] == out;
  }

  lemma {:induction false} Utf8Len(code: nat)
    requires code < 0x11_0000
    ensures |Utf8(code)| <= if code < 0x1_0000 then 3 else 4
  {
  }

  function Shifted(code: nat, n: nat): nat { if n == 0 then code else Shifted(code, n - 1) / 64 }

  lemma {:induction false} NumberRun(s: seq<Byte>, i: nat)
    requires i <= |s|
    ensures i + NumberLen(s, i) < |s| ==> !IsNumeric(s[i + NumberLen(s, i)])
    decreases |s| - i
  {
    if i < |s| && IsNumeric(s[i]) { NumberRun(s, i + 1); }
  }

  /** The bytes of a code point: a mark and its high bits, then six bits each. */
  lemma {:induction false} Utf8Is(code: nat, n: nat, mark: nat)
    requires code < 0x11_0000
    requires n == (if code < 0x80 then 1 else if code < 0x800 then 2 else if code < 0x1_0000 then 3 else 4)
    requires mark == (if n == 1 then 0 else if n == 2 then 0xC0 else if n == 3 then 0xE0 else 0xF0)
    ensures |Utf8(code)| == n && Utf8(code)[0] == mark + Shifted(code, n - 1)
    ensures forall j | 0 < j < n :: Utf8(code)[j] == 0x80 + Shifted(code, n - 1 - j) % 64
  {
    assert Shifted(code, 1) == code / 64;
    assert Shifted(code, 2) == code / 64 / 64;
    assert Shifted(code, 3) == code / 64 / 64 / 64;
  }

  // ----- lists of items and members while they grow

  function Chain(list: seq<Value>, end: Items): Items { if list == [] then end else Item(list[0], Chain(list[1..], end)) }

  lemma {:induction false} ChainSnoc(list: seq<Value>, v: Value, end: Items)
    ensures Chain(list + [v], end) == Chain(list, Item(v, end))
  {
    if list == [] {
      assert [v][1..] == [];
    } else {
      assert (list + [v])[1..] == list[1..] + [v];
      ChainSnoc(list[1..], v, end);
    }
  }

  ghost function Chained(list: seq<Value>, r: Option<(Items, nat)>): Option<(Items, nat)> {
    if r.None? then None else Some((Chain(list, r.value.0), r.value.1))
  }

  /** Of the items that begin at `start`, `list` has been read, and the others begin at `at`. */
  ghost predicate ItemsPending(lib: Lib, s: seq<Byte>, start: nat, at: nat, depth: nat, list: seq<Value>) {
    forall r | ReadsItems(lib, s, at, depth, r) :: ReadsItems(lib, s, start, depth, Chained(list, r))
  }

  lemma {:induction false} ItemsStart(lib: Lib, s: seq<Byte>, start: nat, depth: nat)
    ensures ItemsPending(lib, s, start, start, depth, [])
  {
    forall r | ReadsItems(lib, s, start, depth, r) ensures Chained([], r) == r {}
  }

  lemma {:induction false} ItemsNext(lib: Lib, s: seq<Byte>, start: nat, at: nat, depth: nat, list: seq<Value>, v: Value, e: nat)
    requires ItemsPending(lib, s, start, at, depth, list) && at < |s| && Reads(lib, s, Skip(s, at), depth, Some((v, e)))
    requires e < |s| && s[Skip(s, e)] == COMMA && Skip(s, e) + 1 < |s|
    ensures ItemsPending(lib, s, start, Skip(s, e) + 1, depth, list + [v])
  {
    forall r | ReadsItems(lib, s, Skip(s, e) + 1, depth, r) ensures ReadsItems(lib, s, start, depth, Chained(list + [v], r)) {
      ReadNextItem(lib, s, at, depth, Some((v, e)), r);
      if r.Some? { ChainSnoc(list, v, r.value.0); }
    }
  }

  lemma {:induction false} ItemsLast(lib: Lib, s: seq<Byte>, start: nat, at: nat, depth: nat, list: seq<Value>, v: Value, e: nat)
    requires ItemsPending(lib, s, start, at, depth, list) && at < |s| && Reads(lib, s, Skip(s, at), depth, Some((v, e)))
    requires e < |s| && s[Skip(s, e)] == CLOSE_ARRAY
    ensures ReadsItems(lib, s, start, depth, Some((Chain(list + [v], NoItem), Skip(s, e) + 1)))
  {
    ReadLastItem(lib, s, at, depth, Some((v, e)));
    ChainSnoc(list, v, NoItem);
  }

  lemma {:induction false} ItemsFail(lib: Lib, s: seq<Byte>, start: nat, at: nat, depth: nat, list: seq<Value>, r: Option<(Value, nat)>)
    requires ItemsPending(lib, s, start, at, depth, list) && at < |s| && Reads(lib, s, Skip(s, at), depth, r)
    requires r.Some? ==> r.value.1 < |s| && s[Skip(s, r.value.1)] != COMMA && s[Skip(s, r.value.1)] != CLOSE_ARRAY
    ensures ReadsItems(lib, s, start, depth, None)
  {
    ReadLastItem(lib, s, at, depth, r);
  }

  function ChainMembers(list: seq<(seq<Byte>, Value)>, end: Members): Members {
    if list == [] then end else Member(list[0].0, list[0].1, ChainMembers(list[1..], end))
  }

  lemma {:induction false} ChainMembersSnoc(list: seq<(seq<Byte>, Value)>, m: (seq<Byte>, Value), end: Members)
    ensures ChainMembers(list + [m], end) == ChainMembers(list, Member(m.0, m.1, end))
  {
    if list == [] {
      assert [m][1..] == [];
    } else {
      assert (list + [m])[1..] == list[1..] + [m];
      ChainMembersSnoc(list[1..], m, end);
    }
  }

  ghost function ChainedMembers(list: seq<(seq<Byte>, Value)>, r: Option<(Members, nat)>): Option<(Members, nat)> {
    if r.None? then None else Some((ChainMembers(list, r.value.0), r.value.1))
  }

  ghost predicate MembersPending(lib: Lib, s: seq<Byte>, start: nat, at: nat, depth: nat, list: seq<(seq<Byte>, Value)>) {
    forall r | ReadsMembers(lib, s, at, depth, r) :: ReadsMembers(lib, s, start, depth, ChainedMembers(list, r))
  }

  lemma {:induction false} MembersStart(lib: Lib, s: seq<Byte>, start: nat, depth: nat)
    ensures MembersPending(lib, s, start, start, depth, [])
  {
    forall r | ReadsMembers(lib, s, start, depth, r) ensures ChainedMembers([], r) == r {}
  }

  lemma {:induction false} MembersNext(lib: Lib, s: seq<Byte>, start: nat, at: nat, depth: nat, list: seq<(seq<Byte>, Value)>,
                                       name: seq<Byte>, n: nat, u: nat, v: Value, e: nat)
    requires MembersPending(lib, s, start, at, depth, list) && NamedValue(s, at, name, n, u) && Reads(lib, s, u, depth, Some((v, e)))
    requires e < |s| && s[Skip(s, e)] == COMMA && Skip(s, e) + 1 < |s|
    ensures MembersPending(lib, s, start, Skip(s, e) + 1, depth, list + [(name, v)])
  {
    forall r | ReadsMembers(lib, s, Skip(s, e) + 1, depth, r)
      ensures ReadsMembers(lib, s, start, depth, ChainedMembers(list + [(name, v)], r))
    {
      ReadNextMember(lib, s, at, name, n, u, depth, Some((v, e)), r);
      if r.Some? { ChainMembersSnoc(list, (name, v), r.value.0); }
    }
  }

  lemma {:induction false} MembersLast(lib: Lib, s: seq<Byte>, start: nat, at: nat, depth: nat, list: seq<(seq<Byte>, Value)>,
                                       name: seq<Byte>, n: nat, u: nat, v: Value, e: nat)
    requires MembersPending(lib, s, start, at, depth, list) && NamedValue(s, at, name, n, u) && Reads(lib, s, u, depth, Some((v, e)))
    requires e < |s| && s[Skip(s, e)] == CLOSE_OBJECT
    ensures ReadsMembers(lib, s, start, depth, Some((ChainMembers(list + [(name, v)], NoMember), Skip(s, e) + 1)))
  {
    ReadLastMember(lib, s, at, name, n, u, depth, Some((v, e)));
    ChainMembersSnoc(list, (name, v), NoMember);
  }

  lemma {:induction false} MembersFail(lib: Lib, s: seq<Byte>, start: nat, at: nat, depth: nat, list: seq<(seq<Byte>, Value)>,
                                       name: seq<Byte>, n: nat, u: nat, r: Option<(Value, nat)>)
    requires MembersPending(lib, s, start, at, depth, list) && NamedValue(s, at, name, n, u) && Reads(lib, s, u, depth, r)
    requires r.Some? ==> r.value.1 < |s| && s[Skip(s, r.value.1)] != COMMA && s[Skip(s, r.value.1)] != CLOSE_OBJECT
    ensures ReadsMembers(lib, s, start, depth, None)
  {
    ReadLastMember(lib, s, at, name, n, u, depth, r);
  }

  lemma {:induction false} NameFails(lib: Lib, s: seq<Byte>, start: nat, at: nat, depth: nat, list: seq<(seq<Byte>, Value)>)
    requires LibOk(lib) && Terminated(s) && MembersPending(lib, s, start, at, depth, list) && at < |s|
    requires match ParseString(s, Skip(s, at))
             case None => true
             case Some((_, n)) => n < |s| && s[Skip(s, n)] != COLON
    ensures ReadsMembers(lib, s, start, depth, None)
  {
    ReadNoName(lib, s, at, depth);
  }

  class ParseBuffer {
    const content: seq<Byte>
    const lib: Lib
    var offset: nat
    var depth: nat

    ghost predicate Valid()
      reads `offset
    {
      LibOk(lib) && Terminated(content) && offset < |content|
    }

    constructor (text: seq<Byte>, c: Lib)
      requires LibOk(c)
      ensures Valid() && content == text + [0] && lib == c && offset == 0 && depth == 0
    {
      content, lib, offset, depth := text + [0], c, 0, 0;
    }

    method SkipUtf8Bom()
      requires Valid() && offset == 0
      modifies `offset
      ensures Valid() && offset == SkipBom(content)
    {
      if |content| > 4 && content[..3] == [0xEF, 0xBB, 0xBF] {
        offset := offset + 3;
      }
    }

    method BufferSkipWhitespace()
      requires Valid()
      modifies `offset
      ensures Valid() && offset == Skip(content, old(offset))
    {
      while offset < |content| && content[offset] <= 32
        invariant old(offset) <= offset <= |content|
        invariant Skip(content, old(offset)) == if offset < |content| then Skip(content, offset) else |content| - 1
      {
        offset := offset + 1;
      }
      if offset == |content| {
        offset := offset - 1;
      }
    }

    /** Copies the bytes of a number, at most 63, into a string of their own. */
    method CopyNumber() returns (numberCString: array<Byte>, i: nat)
      requires Valid()
      ensures i == Min(NumberLen(content, offset), NUMBER_ROOM) && i < numberCString.Length
      ensures numberCString[..i] == content[offset..offset + i]
    {
      ghost var n := NumberLen(content, offset);
      NumberRun(content, offset);
      numberCString := new Byte[NUMBER_ROOM + 1];
      i := 0;
      while i < NUMBER_ROOM && offset + i < |content| && IsNumeric(content[offset + i])
        invariant i <= NUMBER_ROOM && i <= n && offset + n <= |content|
        invariant numberCString[..i] == content[offset..offset + i]
      {
        numberCString[i] := content[offset + i];
        i := i + 1;
      }
      numberCString[i] := 0;
    }

    method ParseNumber() returns (item: Option<Value>)
      requires Valid()
      modifies `offset
      ensures Json.ParseNumber(lib, content, old(offset)) == if item.Some? then Some((item.value, offset)) else None
      ensures item.Some? ==> Valid()
    {
      var numberCString, i := CopyNumber();
      StrtodWithin(lib, numberCString[..i]);
      var (number, afterEnd) := lib.strtod(numberCString[..i]);
      if afterEnd == 0 {
        return None;
      }
      assert !IsNumeric(content[|content| - 1]);
      offset := offset + afterEnd;
      return Some(Number(number));
    }

    // ----- strings

    /** Finds the closing quote, and counts the escape sequences in front of it. */
    method ScanString(start: nat) returns (inputEnd: nat, skippedBytes: nat, found: bool)
      requires start <= |content|
      ensures found ==> Scan(content, start) == Some(inputEnd) && skippedBytes == Escapes(content, start, inputEnd)
      ensures !found ==> Scan(content, start) == None
    {
      inputEnd, skippedBytes := start, 0;
      while inputEnd < |content| && content[inputEnd] != QUOTE
        invariant start <= inputEnd <= |content| && Scan(content, start) == Scan(content, inputEnd)
        invariant forall p | inputEnd <= p <= |content| :: Escapes(content, start, p) == skippedBytes + Escapes(content, inputEnd, p)
        decreases |content| - inputEnd
      {
        if content[inputEnd] == BACKSLASH {
          if inputEnd + 1 >= |content| {
            return inputEnd, skippedBytes, false;
          }
          skippedBytes := skippedBytes + 1;
          inputEnd := inputEnd + 1;
        }
        inputEnd := inputEnd + 1;
      }
      found := inputEnd < |content|;
    }

    /** Writes the UTF-8 bytes of a literal at `at`; nothing is written if the literal is none. */
    method Utf16LiteralToUtf8(inputPointer: nat, inputEnd: nat, output: array<Byte>, at: nat) returns (sequenceLength: nat, end: nat)
      requires inputPointer <= inputEnd <= |content| && at <= output.Length
      requires Utf16(content, inputPointer, inputEnd).Some? ==>
                 at + |Utf8(Utf16(content, inputPointer, inputEnd).value.0)| <= output.Length
      modifies output
      ensures match Utf16(content, inputPointer, inputEnd)
              case None => sequenceLength == 0 && end == at && output[..] == old(output[..])
              case Some((code, n)) =>
                && sequenceLength == n && end == at + |Utf8(code)| <= output.Length
                && output[..end] == old(output[..at]) + Utf8(code)
    {
      end := at;
      if inputEnd - inputPointer < 6 {
        return 0, at;
      }
      var firstCode := Hex4(content, inputPointer + 2);
      if 0xDC00 <= firstCode <= 0xDFFF {
        return 0, at;
      }
      var codepoint: nat;
      if 0xD800 <= firstCode <= 0xDBFF {
        var second := inputPointer + 6;
        sequenceLength := 12;
        if inputEnd - second < 6 || content[second] != BACKSLASH || content[second + 1] != LETTER_U {
          return 0, at;
        }
        var secondCode := Hex4(content, second + 2);
        if secondCode < 0xDC00 || secondCode > 0xDFFF {
          return 0, at;
        }
        codepoint := 0x1_0000 + (firstCode - 0xD800) * 0x400 + (secondCode - 0xDC00);
      } else {
        sequenceLength := 6;
        codepoint := firstCode;
      }
      end := WriteUtf8(codepoint, output, at);
    }

    method WriteUtf8(code: nat, output: array<Byte>, at: nat) returns (end: nat)
      requires code < 0x11_0000 && at + |Utf8(code)| <= output.Length
      modifies output
      ensures end == at + |Utf8(code)| <= output.Length && output[..end] == old(output[..at]) + Utf8(code)
    {
      var utf8Length, firstByteMark := 1, 0;
      if code < 0x80 {
      } else if code < 0x800 {
        utf8Length, firstByteMark := 2, 0xC0;
      } else if code < 0x1_0000 {
        utf8Length, firstByteMark := 3, 0xE0;
      } else {
        utf8Length, firstByteMark := 4, 0xF0;
      }
      Utf8Is(code, utf8Length, firstByteMark);
      WriteSextets(code, utf8Length, firstByteMark, Utf8(code), output, at);
      end := at + utf8Length;
    }

    /** The bytes are written from the last to the first, six bits at a time. */
    method WriteSextets(code: nat, utf8Length: nat, firstByteMark: nat, ghost u: seq<Byte>, output: array<Byte>, at: nat)
      requires |u| == utf8Length > 0 && at + utf8Length <= output.Length
      requires u[0] == firstByteMark + Shifted(code, utf8Length - 1)
      requires forall j | 0 < j < utf8Length :: u[j] == 0x80 + Shifted(code, utf8Length - 1 - j) % 64
      modifies output
      ensures output[..at + utf8Length] == old(output[..at]) + u
    {
      var codepoint, utf8Position := code, utf8Length - 1;
      while utf8Position > 0
        invariant 0 <= utf8Position < utf8Length && codepoint == Shifted(code, utf8Length - 1 - utf8Position)
        invariant forall j | utf8Position < j < utf8Length :: output[at + j] == u[j]
        invariant forall j | 0 <= j < at :: output[j] == old(output[j])
      {
        assert u[utf8Position] == 0x80 + codepoint % 64;
        output[at + utf8Position] := 0x80 + codepoint % 64;
        codepoint := codepoint / 64;
        utf8Position := utf8Position - 1;
      }
      output[at] := firstByteMark + codepoint;
    }

    /** One escape sequence: its bytes are written at `at`. A length of 0 tells that it is none. */
    method UnescapeSequence(inputPointer: nat, inputEnd: nat, output: array<Byte>, at: nat, ghost start: nat) returns (sequenceLength: nat, end: nat)
      requires start <= inputPointer < inputEnd < |content| && content[inputPointer] == BACKSLASH
      requires Room(content, start, inputPointer, inputEnd, at) && inputEnd - start + 2 <= output.Length + Escapes(content, start, inputEnd)
      modifies output
      ensures match Unescaped(content, inputPointer, inputEnd)
              case None => sequenceLength == 0
              case Some((b, n)) =>
                && sequenceLength == n && end == at + |b| < output.Length
                && output[..end] == old(output[..at]) + b
                && Room(content, start, inputPointer + n, inputEnd, end)
    {
      sequenceLength := 2;
      end := at + 1;
      var c := content[inputPointer + 1];
      RoomLeft(content, start, inputPointer, inputEnd, at);
      if c == LETTER_U {
        RoomUtf16(start, inputPointer, inputEnd, at);
        sequenceLength, end := Utf16LiteralToUtf8(inputPointer, inputEnd, output, at);
        return;
      }
      RoomStep(content, start, inputPointer, inputEnd, at, 2, 1);
      match c {
        case 98 => output[at] := 8;
        case 102 => output[at] := 12;
        case 110 => output[at] := 10;
        case 114 => output[at] := 13;
        case 116 => output[at] := 9;
        case _ =>
          if c == QUOTE || c == BACKSLASH || c == 47 {
            output[at] := c;
          } else {
            return 0, at;
          }
      }
    }

    lemma {:induction false} RoomUtf16(start: nat, p: nat, end: nat, n: nat)
      requires start <= p < end < |content| && Room(content, start, p, end, n)
      ensures match Utf16(content, p, end)
              case None => true
              case Some((code, len)) =>
                Room(content, start, p + len, end, n + |Utf8(code)|) && n + |Utf8(code)| + Escapes(content, start, end) <= end - start + 1
    {
      match Utf16(content, p, end)
      case None =>
      case Some((code, len)) =>
        Utf8Len(code);
        RoomStep(content, start, p, end, n, len, |Utf8(code)|);
    }

    method UnescapeString(start: nat, inputEnd: nat, output: array<Byte>) returns (outputLen: nat, ok: bool)
      requires start <= inputEnd < |content| && inputEnd - start + 2 <= output.Length + Escapes(content, start, inputEnd)
      modifies output
      ensures ok ==> outputLen < output.Length && Unescape(content, start, inputEnd) == Some(output[..outputLen])
      ensures !ok ==> Unescape(content, start, inputEnd) == None
    {
      var inputPointer := start;
      outputLen := 0;
      UnescapeStart(content, start, inputEnd);
      RoomLeft(content, start, start, inputEnd, 0);
      while inputPointer < inputEnd
        invariant start <= inputPointer && outputLen < output.Length && Room(content, start, inputPointer, inputEnd, outputLen)
        invariant Unescaping(content, start, inputPointer, inputEnd, output[..outputLen])
        decreases inputEnd - inputPointer
      {
        ghost var out := output[..outputLen];
        if content[inputPointer] != BACKSLASH {
          RoomStep(content, start, inputPointer, inputEnd, outputLen, 1, 1);
          UnescapeStep(content, start, inputPointer, inputEnd, out, [content[inputPointer]], 1);
          output[outputLen] := content[inputPointer];
          assert output[..outputLen + 1] == out + [content[inputPointer]];
          outputLen := outputLen + 1;
          inputPointer := inputPointer + 1;
        } else {
          var sequenceLength, end := UnescapeSequence(inputPointer, inputEnd, output, outputLen, start);
          if sequenceLength == 0 {
            UnescapeFails(content, start, inputPointer, inputEnd, out);
            return outputLen, false;
          }
          UnescapeStep(content, start, inputPointer, inputEnd, out, output[outputLen..end], sequenceLength);
          inputPointer, outputLen := inputPointer + sequenceLength, end;
        }
      }
      UnescapeEnd(content, start, inputPointer, inputEnd, output[..outputLen]);
      ok := true;
    }

    /** The output holds the bytes between the quotes, without one byte of each escape sequence, and two more; never more than
        that is written. */
    method UnescapeCopy(start: nat, inputEnd: nat, skippedBytes: nat) returns (str: Option<seq<Byte>>)
      requires 0 < start <= inputEnd < |content| && skippedBytes == Escapes(content, start, inputEnd)
      ensures str == match Unescape(content, start, inputEnd) case None => None case Some(out) => Some(CString(out))
    {
      MoreEscapes(content, start, start, inputEnd - start);
      var allocationLength := inputEnd - (start - 1) - skippedBytes;
      var output := new Byte[allocationLength + 1];
      var outputLen, ok := UnescapeString(start, inputEnd, output);
      if !ok {
        return None;
      }
      str := Some(CString(output[..outputLen]));
      output[outputLen] := 0;
    }

    method ParseString() returns (str: Option<seq<Byte>>)
      requires Valid()
      modifies `offset
      ensures Json.ParseString(content, old(offset)) == if str.Some? then Some((str.value, offset)) else None
      ensures str.Some? ==> Valid()
    {
      if content[offset] != QUOTE {
        return None;
      }
      var inputEnd, skippedBytes, found := ScanString(offset + 1);
      if !found {
        return None;
      }
      str := UnescapeCopy(offset + 1, inputEnd, skippedBytes);
      if str.Some? {
        offset := inputEnd + 1;
      }
    }

    // ----- values

    method StartsWith(t: seq<Byte>) returns (b: bool)
      ensures b <==> StartsAt(content, offset, t)
    {
      b := offset + |t| <= |content| && content[offset..offset + |t|] == t;
    }

    method ParseLiteral() returns (item: Option<Value>)
      requires Valid()
      modifies `offset
      ensures item.Some? ==> Valid() && Reads(lib, content, old(offset), depth, Some((item.value, offset)))
      ensures item.None? ==> offset == old(offset) && !StartsAt(content, offset, NULL_TEXT)
                             && !StartsAt(content, offset, FALSE_TEXT) && !StartsAt(content, offset, TRUE_TEXT)
    {
      ReadLiteral(lib, content, offset, depth);
      var isNull := StartsWith(NULL_TEXT);
      var isFalse := StartsWith(FALSE_TEXT);
      var isTrue := StartsWith(TRUE_TEXT);
      if isNull {
        ReadBeyond(lib, content, offset, depth, Null, offset + 4);
        offset := offset + 4;
        return Some(Null);
      }
      if isFalse {
        ReadBeyond(lib, content, offset, depth, Bool(false), offset + 5);
        offset := offset + 5;
        return Some(Bool(false));
      }
      if isTrue {
        ReadBeyond(lib, content, offset, depth, Bool(true), offset + 4);
        offset := offset + 4;
        return Some(Bool(true));
      }
      return None;
    }

    method ParseValue() returns (item: Option<Value>)
      requires Valid()
      modifies `offset, `depth
      ensures item.None? ==> Reads(lib, content, old(offset), old(depth), None)
      ensures item.Some? ==> Valid() && depth == old(depth) && Reads(lib, content, old(offset), old(depth), Some((item.value, offset)))
      decreases |content| - offset, 1
    {
      item := ParseLiteral();
      if item.Some? {
        return;
      }
      var c := content[offset];
      if c == QUOTE {
        ReadQuoted(lib, content, offset, depth);
        var str := ParseString();
        item := if str.Some? then Some(Str(str.value)) else None;
      } else if c == MINUS || 48 <= c <= 57 {
        ReadNumber(lib, content, offset, depth);
        item := ParseNumber();
      } else if c == OPEN_ARRAY {
        item := ParseArray();
      } else if c == OPEN_OBJECT {
        item := ParseObject();
      } else {
        ReadNothing(lib, content, offset, depth);
        return None;
      }
    }

    method ParseArray() returns (item: Option<Value>)
      requires Valid() && content[offset] == OPEN_ARRAY
      modifies `offset, `depth
      ensures item.None? ==> Reads(lib, content, old(offset), old(depth), None)
      ensures item.Some? ==> Valid() && depth == old(depth) && Reads(lib, content, old(offset), old(depth), Some((item.value, offset)))
      decreases |content| - offset, 0
    {
      ghost var i, d := offset, depth;
      if depth >= NESTING_LIMIT {
        ReadTooDeep(lib, content, i, d);
        return None;
      }
      depth := depth + 1;
      offset := offset + 1;
      BufferSkipWhitespace();
      ghost var q := offset;
      if content[offset] == CLOSE_ARRAY {
        ReadNoItem(lib, content, i, q, d);
        depth := depth - 1;
        offset := offset + 1;
        return Some(Array(NoItem));
      }
      offset := offset - 1;
      var items := ParseItems();
      if items.None? {
        ReadBadItems(lib, content, i, q, d);
        return None;
      }
      ReadSomeItems(lib, content, i, q, d, items.value, offset);
      depth := depth - 1;
      return Some(Array(items.value));
    }

    /** A value and the white space behind it. */
    method ParseValueAndSkip() returns (item: Option<Value>, ghost e: nat)
      requires Valid()
      modifies `offset, `depth
      ensures item.None? ==> Reads(lib, content, old(offset), old(depth), None)
      ensures item.Some? ==> Reads(lib, content, old(offset), old(depth), Some((item.value, e)))
      ensures item.Some? ==> old(offset) < e < |content| && offset == Skip(content, e) && Valid() && depth == old(depth)
      decreases |content| - offset, 2
    {
      ghost var i, d := offset, depth;
      item := ParseValue();
      e := offset;
      if item.Some? {
        ReadBeyond(lib, content, i, d, item.value, e);
        BufferSkipWhitespace();
      }
    }

    /** The items of an array and its closing bracket; the cursor is one byte in front of the first item. */
    method ParseItems() returns (items: Option<Items>)
      requires LibOk(lib) && Terminated(content) && offset + 1 < |content|
      modifies `offset, `depth
      ensures items.None? ==> ReadsItems(lib, content, old(offset) + 1, old(depth), None)
      ensures items.Some? ==> ReadsItems(lib, content, old(offset) + 1, old(depth), Some((items.value, offset)))
      ensures items.Some? ==> Valid() && depth == old(depth)
      decreases |content| - offset - 1, 3
    {
      ghost var start, d := offset + 1, depth;
      var list: seq<Value> := [];
      ItemsStart(lib, content, start, d);
      while true
        invariant start <= offset + 1 < |content| && depth == d
        invariant ItemsPending(lib, content, start, offset + 1, d, list)
        decreases |content| - offset
      {
        ghost var at := offset + 1;
        offset := offset + 1;
        BufferSkipWhitespace();
        var item, e := ParseValueAndSkip();
        if item.None? {
          ItemsFail(lib, content, start, at, d, list, None);
          return None;
        }
        if content[offset] != COMMA {
          if content[offset] != CLOSE_ARRAY {
            ItemsFail(lib, content, start, at, d, list, Some((item.value, e)));
            return None;
          }
          ItemsLast(lib, content, start, at, d, list, item.value, e);
          offset := offset + 1;
          return Some(Chain(list + [item.value], NoItem));
        }
        ItemsNext(lib, content, start, at, d, list, item.value, e);
        list := list + [item.value];
      }
    }

    method ParseObject() returns (item: Option<Value>)
      requires Valid() && content[offset] == OPEN_OBJECT
      modifies `offset, `depth
      ensures item.None? ==> Reads(lib, content, old(offset), old(depth), None)
      ensures item.Some? ==> Valid() && depth == old(depth) && Reads(lib, content, old(offset), old(depth), Some((item.value, offset)))
      decreases |content| - offset, 0
    {
      ghost var i, d := offset, depth;
      if depth >= NESTING_LIMIT {
        ReadTooDeep(lib, content, i, d);
        return None;
      }
      depth := depth + 1;
      offset := offset + 1;
      BufferSkipWhitespace();
      ghost var q := offset;
      if content[offset] == CLOSE_OBJECT {
        ReadNoMember(lib, content, i, q, d);
        depth := depth - 1;
        offset := offset + 1;
        return Some(Object(NoMember));
      }
      offset := offset - 1;
      var members := ParseMembers();
      if members.None? {
        ReadBadMembers(lib, content, i, q, d);
        return None;
      }
      ReadSomeMembers(lib, content, i, q, d, members.value, offset);
      depth := depth - 1;
      return Some(Object(members.value));
    }

    /** A name and the colon behind it, up to the first byte of the value. */
    method ParseName() returns (name: Option<seq<Byte>>, ghost n: nat)
      requires LibOk(lib) && Terminated(content) && offset + 1 < |content|
      modifies `offset
      ensures name.Some? ==> Valid() && offset > old(offset) + 1 && NamedValue(content, old(offset) + 1, name.value, n, offset)
      ensures name.None? ==> match Json.ParseString(content, Skip(content, old(offset) + 1))
                             case None => true
                             case Some((_, n)) => n < |content| && content[Skip(content, n)] != COLON
    {
      ghost var at := offset + 1;
      offset := offset + 1;
      BufferSkipWhitespace();
      name := ParseString();
      n := offset;
      if name.None? {
        return;
      }
      assert Named(content, Skip(content, at), name.value, n) by {
        assert NamedNow(content, Skip(content, at), name.value, n, 0);
      }
      BufferSkipWhitespace();
      if content[offset] != COLON {
        return None, n;
      }
      offset := offset + 1;
      BufferSkipWhitespace();
    }

    /** The members of an object and its closing brace; the cursor is one byte in front of the first name. */
    method ParseMembers() returns (members: Option<Members>)
      requires LibOk(lib) && Terminated(content) && offset + 1 < |content|
      modifies `offset, `depth
      ensures members.None? ==> ReadsMembers(lib, content, old(offset) + 1, old(depth), None)
      ensures members.Some? ==> ReadsMembers(lib, content, old(offset) + 1, old(depth), Some((members.value, offset)))
      ensures members.Some? ==> Valid() && depth == old(depth)
      decreases |content| - offset - 1, 3
    {
      ghost var start, d := offset + 1, depth;
      var list: seq<(seq<Byte>, Value)> := [];
      MembersStart(lib, content, start, d);
      while true
        invariant start <= offset + 1 < |content| && depth == d
        invariant MembersPending(lib, content, start, offset + 1, d, list)
        decreases |content| - offset
      {
        ghost var at := offset + 1;
        var name, n := ParseName();
        if name.None? {
          NameFails(lib, content, start, at, d, list);
          return None;
        }
        ghost var u := offset;
        var item, e := ParseValueAndSkip();
        if item.None? {
          MembersFail(lib, content, start, at, d, list, name.value, n, u, None);
          return None;
        }
        if content[offset] != COMMA {
          if content[offset] != CLOSE_OBJECT {
            MembersFail(lib, content, start, at, d, list, name.value, n, u, Some((item.value, e)));
            return None;
          }
          MembersLast(lib, content, start, at, d, list, name.value, n, u, item.value, e);
          offset := offset + 1;
          return Some(ChainMembers(list + [(name.value, item.value)], NoMember));
        }
        MembersNext(lib, content, start, at, d, list, name.value, n, u, item.value, e);
        list := list + [(name.value, item.value)];
      }
    }
  }

  /** Reads the value of a text; with `whole`, nothing but white space may follow it. */
  method Parse(text: seq<Byte>, lib: Lib, whole: bool) returns (item: Option<Value>)
    requires LibOk(lib)
    ensures item == Json.Parse(lib, text, whole)
  {
    var buffer := new ParseBuffer(text, lib);
    buffer.SkipUtf8Bom();
    buffer.BufferSkipWhitespace();
    ghost var i := buffer.offset;
    item := buffer.ParseValue();
    assert ReadsNow(lib, buffer.content, i, 0, if item.Some? then Some((item.value, buffer.offset)) else None, 0);
    if item.Some? && whole {
      buffer.BufferSkipWhitespace();
      if buffer.content[buffer.offset] != 0 {
        return None;
      }
    }
  }
}
