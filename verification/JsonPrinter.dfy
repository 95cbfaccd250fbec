module JsonPrinter {
  import opened AddrTree
  import opened NetUtil
  import opened Json

  // ----- C strings

  /** Strings of the library end at their first zero byte and hold none. */
  ghost predicate CStrings(v: Value) {
    match v
    case Str(s) => 0 !in s
    case Array(items) => CStringItems(items)
    case Object(ms) => CStringMembers(ms)
    case _ => true
  }

  ghost predicate CStringItems(items: Items) { items.Item? ==> CStrings(items.value) && CStringItems(items.next) }

  ghost predicate CStringMembers(ms: Members) { ms.Member? ==> 0 !in ms.name && CStrings(ms.value) && CStringMembers(ms.next) }

  lemma {:induction false} EscapeNoZero(str: seq<Byte>)
    requires 0 !in str
    ensures 0 !in Escape(str)
  {
    if str != [] {
      assert str[0] in str;
      EscapeNoZero(str[1..]);
    }
  }

  lemma {:induction false} NumberNoZero(lib: Lib, x: real)
    requires LibOk(lib)
    ensures 0 !in PrintNumber(lib, x)
  {
    SprintfShort(lib, 15, x);
    SprintfShort(lib, 17, x);
  }

  /** The text of a number, in the program's order. */
  method FormatNumber(lib: Lib, x: real) returns (numberBuffer: seq<Byte>)
    requires LibOk(lib)
    ensures numberBuffer == Json.PrintNumber(lib, x) && |numberBuffer| <= 25
  {
    InRange(x);
    DecimalShort(ValueInt(x));
    SprintfShort(lib, 15, x);
    SprintfShort(lib, 17, x);
    if x == ValueInt(x) as real {
      return Decimal(ValueInt(x));
    }
    numberBuffer := lib.sprintf(15, x);
    var (test, read) := lib.strtod(numberBuffer);
    if read == 0 || !CompareDouble(test, x) {
      numberBuffer := lib.sprintf(17, x);
    }
  }

  /** No text holds a zero byte, so that the length of what was printed can be found by looking for one. */
  lemma {:induction false} PrintNoZero(lib: Lib, v: Value, d: nat, format: bool)
    requires LibOk(lib) && CStrings(v)
    ensures 0 !in Print(lib, v, d, format)
    decreases v, 0
  {
    match v
    case Number(x) => NumberNoZero(lib, x);
    case Str(s) => EscapeNoZero(s);
    case Array(items) => ItemsNoZero(lib, items, d + 1, format);
    case Object(ms) => MembersNoZero(lib, ms, d + 1, format);
    case _ =>
  }

  lemma {:induction false} ItemsNoZero(lib: Lib, items: Items, d: nat, format: bool)
    requires LibOk(lib) && CStringItems(items)
    ensures 0 !in PrintItems(lib, items, d, format)
    decreases items, 0
  {
    if items.Item? {
      PrintNoZero(lib, items.value, d, format);
      ItemsNoZero(lib, items.next, d, format);
    }
  }

  lemma {:induction false} MembersNoZero(lib: Lib, ms: Members, d: nat, format: bool)
    requires LibOk(lib) && CStringMembers(ms)
    ensures 0 !in PrintMembers(lib, ms, d, format)
    decreases ms, 0
  {
    if ms.Member? {
      EscapeNoZero(ms.name);
      PrintNoZero(lib, ms.value, d, format);
      MembersNoZero(lib, ms.next, d, format);
    }
  }

  // ----- escaping one byte after the other

  lemma {:induction false} EscapeSnoc(str: seq<Byte>, b: Byte)
    ensures Escape(str + [b]) == Escape(str) + EscapeByte(b)
  {
    if str == [] {
      assert [b][1..] == [];
    } else {
      assert (str + [b])[1..] == str[1..] + [b];
      EscapeSnoc(str[1..], b);
    }
  }

  lemma {:induction false} EscapeFront(str: seq<Byte>, i: nat)
    requires i < |str|
    ensures Escape(str[..i + 1]) == Escape(str[..i]) + EscapeByte(str[i])
    ensures Escape(str[..|str|]) == Escape(str)
  {
    assert str[..i + 1] == str[..i] + [str[i]];
    assert str[..|str|] == str;
    EscapeSnoc(str[..i], str[i]);
  }

  lemma {:induction false} EscapePlain(str: seq<Byte>)
    ensures |Escape(str)| >= |str| && (|Escape(str)| == |str| ==> Escape(str) == str)
  {
    if str != [] {
      EscapePlain(str[1..]);
      PlainByte(str[0]);
      PlainSnoc(str, EscapeByte(str[0]), Escape(str[1..]));
    }
  }

  lemma {:induction false} PlainByte(b: Byte)
    ensures |EscapeByte(b)| >= 1 && (|EscapeByte(b)| == 1 ==> EscapeByte(b) == [b])
  {
  }

  lemma {:induction false} PlainSnoc(str: seq<Byte>, e: seq<Byte>, rest: seq<Byte>)
    requires str != [] && |e| >= 1 && (|e| == 1 ==> e == [str[0]]) && |rest| >= |str| - 1 && (|rest| == |str| - 1 ==> rest == str[1..])
    ensures |e + rest| >= |str| && (|e + rest| == |str| ==> e + rest == str)
  {
  }

  // ----- lists, one element after the other

  /** What the loop over an array prints for one item. */
  function ElementText(lib: Lib, items: Items, d: nat, format: bool): seq<Byte>
    requires items.Item?
  {
    Print(lib, items.value, d, format) + if items.next.Item? then [COMMA] + Optional(format, SPACE) else []
  }

  function KeyText(ms: Members, d: nat, format: bool): seq<Byte>
    requires ms.Member?
  {
    Tabs(format, d) + PrintString(ms.name) + [COLON] + Optional(format, TAB)
  }

  /** What the loop over an object prints for one member. */
  function MemberText(lib: Lib, ms: Members, d: nat, format: bool): seq<Byte>
    requires ms.Member?
  {
    KeyText(ms, d, format) + Print(lib, ms.value, d, format)
    + (if ms.next.Member? then [COMMA] else []) + Optional(format, LF)
  }

  ghost predicate ItemsSoFarNow(lib: Lib, all: Items, cur: Items, d: nat, format: bool, front: seq<Byte>, done: seq<Byte>, k: int) {
    done + PrintItems(lib, cur, d, format) == front + PrintItems(lib, all, d, format)
  }

  /** Behind `front`, all items but those from `cur` on have been printed, which makes `done`. */
  ghost predicate ItemsSoFar(lib: Lib, all: Items, cur: Items, d: nat, format: bool, front: seq<Byte>, done: seq<Byte>) {
    forall k {:trigger ItemsSoFarNow(lib, all, cur, d, format, front, done, k)} :: ItemsSoFarNow(lib, all, cur, d, format, front, done, k)
  }

  lemma {:induction false} ItemsFirst(lib: Lib, all: Items, d: nat, format: bool, front: seq<Byte>)
    ensures ItemsSoFar(lib, all, all, d, format, front, front)
  {
  }

  lemma {:induction false} ItemsMore(lib: Lib, all: Items, cur: Items, d: nat, format: bool, front: seq<Byte>, done: seq<Byte>)
    requires ItemsSoFar(lib, all, cur, d, format, front, done) && cur.Item?
    ensures ItemsSoFar(lib, all, cur.next, d, format, front, done + ElementText(lib, cur, d, format))
    ensures |done| + |ElementText(lib, cur, d, format)| <= |front| + |PrintItems(lib, all, d, format)|
  {
    assert ItemsSoFarNow(lib, all, cur, d, format, front, done, 0);
    ElementFirst(lib, cur, d, format);
    Associate(done, ElementText(lib, cur, d, format), PrintItems(lib, cur.next, d, format));
  }

  lemma {:induction false} ElementFirst(lib: Lib, items: Items, d: nat, format: bool)
    requires items.Item?
    ensures PrintItems(lib, items, d, format) == ElementText(lib, items, d, format) + PrintItems(lib, items.next, d, format)
  {
  }

  lemma {:induction false} Associate(a: seq<Byte>, b: seq<Byte>, c: seq<Byte>)
    ensures a + b + c == a + (b + c)
  {
  }

  lemma {:induction false} ItemsAll(lib: Lib, all: Items, cur: Items, d: nat, format: bool, front: seq<Byte>, done: seq<Byte>)
    requires ItemsSoFar(lib, all, cur, d, format, front, done) && cur.NoItem?
    ensures done == front + PrintItems(lib, all, d, format)
  {
    assert ItemsSoFarNow(lib, all, cur, d, format, front, done, 0);
    assert done + [] == done;
  }

  ghost predicate MembersSoFarNow(lib: Lib, all: Members, cur: Members, d: nat, format: bool, front: seq<Byte>, done: seq<Byte>, k: int) {
    done + PrintMembers(lib, cur, d, format) == front + PrintMembers(lib, all, d, format)
  }

  ghost predicate MembersSoFar(lib: Lib, all: Members, cur: Members, d: nat, format: bool, front: seq<Byte>, done: seq<Byte>) {
    forall k {:trigger MembersSoFarNow(lib, all, cur, d, format, front, done, k)} :: MembersSoFarNow(lib, all, cur, d, format, front, done, k)
  }

  lemma {:induction false} MembersFirst(lib: Lib, all: Members, d: nat, format: bool, front: seq<Byte>)
    ensures MembersSoFar(lib, all, all, d, format, front, front)
  {
  }

  lemma {:induction false} MembersMore(lib: Lib, all: Members, cur: Members, d: nat, format: bool, front: seq<Byte>, done: seq<Byte>)
    requires MembersSoFar(lib, all, cur, d, format, front, done) && cur.Member?
    ensures MembersSoFar(lib, all, cur.next, d, format, front, done + MemberText(lib, cur, d, format))
    ensures |done| + |MemberText(lib, cur, d, format)| <= |front| + |PrintMembers(lib, all, d, format)|
  {
    assert MembersSoFarNow(lib, all, cur, d, format, front, done, 0);
    MemberFirst(lib, cur, d, format);
    Associate(done, MemberText(lib, cur, d, format), PrintMembers(lib, cur.next, d, format));
  }

  lemma {:induction false} MemberFirst(lib: Lib, ms: Members, d: nat, format: bool)
    requires ms.Member?
    ensures PrintMembers(lib, ms, d, format) == MemberText(lib, ms, d, format) + PrintMembers(lib, ms.next, d, format)
  {
  }

  lemma {:induction false} MembersAll(lib: Lib, all: Members, cur: Members, d: nat, format: bool, front: seq<Byte>, done: seq<Byte>)
    requires MembersSoFar(lib, all, cur, d, format, front, done) && cur.NoMember?
    ensures done == front + PrintMembers(lib, all, d, format)
  {
    assert MembersSoFarNow(lib, all, cur, d, format, front, done, 0);
    assert done + [] == done;
  }

  class PrintBuffer {
    var buffer: array<Byte>
    var offset: nat
    var depth: nat
    const format: bool
    const lib: Lib

    ghost predicate Valid()
      reads this
    {
      LibOk(lib) && offset < buffer.Length
    }

    constructor (fmt: bool, c: Lib)
      requires LibOk(c)
      ensures Valid() && fresh(buffer) && offset == 0 && depth == 0 && format == fmt && lib == c
    {
      buffer, offset, depth, format, lib := new Byte[256], 0, 0, fmt, c;
    }

    /** Makes room for `needed` bytes and one more, in a larger buffer if this one is too small. */
    method Ensure(needed: nat) returns (ok: bool)
      requires Valid()
      modifies `buffer
      ensures buffer == old(buffer) || fresh(buffer)
      ensures ok ==> offset + needed < buffer.Length && buffer[..offset] == old(buffer[..offset])
      ensures ok <==> offset + needed + 1 <= INT_MAX || (needed <= INT_MAX && offset + needed < old(buffer.Length))
    {
      if needed > INT_MAX {
        return false;
      }
      var size := needed + offset + 1;
      if size <= buffer.Length {
        return true;
      }
      var newsize := size * 2;
      if size > INT_MAX / 2 {
        if size > INT_MAX {
          return false;
        }
        newsize := INT_MAX;
      }
      var newbuffer := new Byte[newsize];
      forall i | 0 <= i < buffer.Length {
        newbuffer[i] := buffer[i];
      }
      buffer := newbuffer;
      ok := true;
    }

    /** The text so far is `u`; it ends with a zero byte, and the offset may still be behind. */
    ghost predicate Ends(u: seq<Byte>)
      reads this, buffer
    {
      offset <= |u| < buffer.Length && buffer[..|u|] == u && buffer[|u|] == 0 && 0 !in u[offset..]
    }

    method UpdateOffset(ghost u: seq<Byte>)
      requires Valid() && Ends(u)
      modifies `offset
      ensures Valid() && offset == |u| && buffer[..offset] == u
    {
      forall j | offset <= j < |u| ensures u[j] != 0 && buffer[j] == u[j] {
        assert u[j] == u[offset..][j - offset] && u[j] == buffer[..|u|][j];
      }
      while buffer[offset] != 0
        invariant offset <= |u| && buffer[..|u|] == u && buffer[|u|] == 0 && offset < buffer.Length
        invariant forall j | offset <= j < |u| :: u[j] != 0 && buffer[j] == u[j]
        decreases |u| - offset
      {
        offset := offset + 1;
      }
    }

    method Write(at: nat, t: seq<Byte>)
      requires at + |t| <= buffer.Length
      modifies buffer
      ensures buffer[..at + |t|] == old(buffer[..at]) + t
    {
      forall i | 0 <= i < |t| {
        buffer[at + i] := t[i];
      }
    }

    /** Copies bytes to `at`, and a zero byte behind them. */
    method Strcpy(at: nat, t: seq<Byte>)
      requires at + |t| < buffer.Length
      modifies buffer
      ensures buffer[..at + |t|] == old(buffer[..at]) + t && buffer[at + |t|] == 0
    {
      Write(at, t);
      buffer[at + |t|] := 0;
    }

    // ----- values that are no lists

    /** Bytes and a zero byte; the offset stays in front of them. */
    method EmitLast(t: seq<Byte>) returns (ok: bool)
      requires Valid() && 0 !in t
      modifies `buffer, buffer
      ensures buffer == old(buffer) || fresh(buffer)
      ensures ok ==> Valid() && Ends(old(buffer[..offset]) + t)
      ensures !ok ==> offset + |t| + 2 > INT_MAX
    {
      ok := Ensure(|t| + 1);
      if ok {
        Strcpy(offset, t);
        assert (old(buffer[..offset]) + t)[offset..] == t;
      }
    }

    method PrintNumber(x: real) returns (ok: bool)
      requires Valid()
      modifies `buffer, `offset, buffer
      ensures buffer == old(buffer) || fresh(buffer)
      ensures ok ==> Valid() && Ends(old(buffer[..offset]) + Json.PrintNumber(lib, x))
      ensures !ok ==> old(offset) + |Json.PrintNumber(lib, x)| + 2 > INT_MAX
    {
      var numberBuffer := FormatNumber(lib, x);
      if |numberBuffer| > 25 {
        return false;
      }
      ok := Ensure(|numberBuffer| + 1);
      if ok {
        Strcpy(offset, numberBuffer);
        offset := offset + |numberBuffer|;
      }
    }

    /** How many bytes escaping adds. */
    method CountEscapes(str: seq<Byte>) returns (escapeCharacters: nat)
      ensures |str| + escapeCharacters == |Escape(str)|
    {
      escapeCharacters := 0;
      for i := 0 to |str|
        invariant i + escapeCharacters == |Escape(str[..i])|
      {
        EscapeFront(str, i);
        var b := str[i];
        if b == QUOTE || b == BACKSLASH || b == 8 || b == 12 || b == 10 || b == 13 || b == 9 {
          escapeCharacters := escapeCharacters + 1;
        } else if b < 32 {
          escapeCharacters := escapeCharacters + 5;
        }
      }
      assert str[..|str|] == str;
    }

    /** Writes the escaped bytes from `at` on. */
    method WriteEscaped(str: seq<Byte>, at: nat)
      requires at + |Escape(str)| < buffer.Length
      modifies buffer
      ensures buffer[..at + |Escape(str)|] == old(buffer[..at]) + Escape(str)
    {
      var outputPointer := at;
      ghost var front, done: seq<Byte> := buffer[..at], [];
      for i := 0 to |str|
        invariant done == Escape(str[..i]) && outputPointer == at + |done| <= at + |Escape(str)|
        invariant buffer[..outputPointer] == front + done
      {
        EscapeFront(str, i);
        EscapeRest(str, i);
        var e := EscapeByte(str[i]);
        Write(outputPointer, e);
        Regrouped(front, done, e);
        done := done + e;
        outputPointer := outputPointer + |e|;
      }
      assert str[..|str|] == str;
    }

    lemma {:induction false} Regrouped(a: seq<Byte>, b: seq<Byte>, c: seq<Byte>)
      ensures a + b + c == a + (b + c)
    {
    }

    lemma {:induction false} EscapeRest(str: seq<Byte>, i: nat)
      requires i < |str|
      ensures |Escape(str[..i])| + |EscapeByte(str[i])| <= |Escape(str)|
      decreases |str| - i
    {
      EscapeFront(str, i);
      if i + 1 < |str| {
        EscapeRest(str, i + 1);
      }
    }

    /** Quotes and escapes a string into room that is there. */
    method WriteString(str: seq<Byte>, escapeCharacters: nat)
      requires Valid() && |str| + escapeCharacters == |Escape(str)| && offset + |PrintString(str)| < buffer.Length
      modifies buffer
      ensures buffer[..offset + |PrintString(str)|] == old(buffer[..offset]) + PrintString(str)
      ensures buffer[offset + |PrintString(str)|] == 0
    {
      ghost var front := buffer[..offset];
      Quoted(front, Escape(str));
      var outputLength := |str| + escapeCharacters;
      Write(offset, [QUOTE]);
      if escapeCharacters == 0 {
        EscapePlain(str);
        Write(offset + 1, str);
      } else {
        WriteEscaped(str, offset + 1);
      }
      assert buffer[..offset + 1 + outputLength] == front + [QUOTE] + Escape(str);
      Strcpy(offset + 1 + outputLength, [QUOTE]);
    }

    lemma {:induction false} Quoted(front: seq<Byte>, e: seq<Byte>)
      ensures front + [QUOTE] + e + [QUOTE] == front + ([QUOTE] + e + [QUOTE])
    {
    }

    method PrintStringPtr(str: seq<Byte>) returns (ok: bool)
      requires Valid() && 0 !in str
      modifies `buffer, buffer
      ensures buffer == old(buffer) || fresh(buffer)
      ensures ok ==> Valid() && Ends(old(buffer[..offset]) + PrintString(str))
      ensures !ok ==> offset + |PrintString(str)| + 2 > INT_MAX
    {
      var escapeCharacters := CountEscapes(str);
      ok := Ensure(|str| + escapeCharacters + 3);
      if ok {
        WriteString(str, escapeCharacters);
        EscapeNoZero(str);
        assert (old(buffer[..offset]) + PrintString(str))[offset..] == PrintString(str);
      }
    }

    // ----- values

    /** Bytes whose length is known: they are written, and the offset moves behind them. `needed` is the room asked for. */
    method Emit(t: seq<Byte>, needed: nat) returns (ok: bool)
      requires Valid() && |t| <= needed <= |t| + 1
      modifies `buffer, `offset, buffer
      ensures buffer == old(buffer) || fresh(buffer)
      ensures ok ==> Valid() && offset == old(offset) + |t| && buffer[..offset] == old(buffer[..offset]) + t
      ensures !ok ==> old(offset) + |t| + 2 > INT_MAX
    {
      ok := Ensure(needed);
      if ok {
        Write(offset, t);
        offset := offset + |t|;
      }
    }

    /** The same, with a zero byte behind them. */
    method EmitEnded(t: seq<Byte>) returns (ok: bool)
      requires Valid()
      modifies `buffer, `offset, buffer
      ensures buffer == old(buffer) || fresh(buffer)
      ensures ok ==> Valid() && offset == old(offset) + |t| && buffer[..offset] == old(buffer[..offset]) + t
      ensures !ok ==> old(offset) + |t| + 2 > INT_MAX
    {
      ok := Emit(t, |t| + 1);
      if ok {
        buffer[offset] := 0;
      }
    }

    method PrintValue(v: Value) returns (ok: bool)
      requires Valid() && CStrings(v)
      modifies this, buffer
      ensures buffer == old(buffer) || fresh(buffer)
      ensures ok ==> Valid() && depth == old(depth) && Ends(old(buffer[..offset]) + Print(lib, v, old(depth), format))
      ensures !ok ==> old(offset) + |Print(lib, v, old(depth), format)| + 2 > INT_MAX
      decreases v, 2
    {
      match v
      case Null => ok := EmitLast(NULL_TEXT);
      case Bool(b) =>
        if b {
          ok := EmitLast(TRUE_TEXT);
        } else {
          ok := EmitLast(FALSE_TEXT);
        }
      case Number(x) => ok := PrintNumber(x);
      case Str(s) => ok := PrintStringPtr(s);
      case Array(items) => ok := PrintArray(items);
      case Object(ms) => ok := PrintObject(ms);
    }

    /** A value, with the offset behind it. */
    method PrintAndUpdate(v: Value) returns (ok: bool)
      requires Valid() && CStrings(v)
      modifies this, buffer
      ensures buffer == old(buffer) || fresh(buffer)
      ensures ok ==> Valid() && depth == old(depth) && offset == old(offset) + |Print(lib, v, old(depth), format)|
      ensures ok ==> buffer[..offset] == old(buffer[..offset]) + Print(lib, v, old(depth), format)
      ensures !ok ==> old(offset) + |Print(lib, v, old(depth), format)| + 2 > INT_MAX
      decreases v, 3
    {
      ghost var u := buffer[..offset] + Print(lib, v, depth, format);
      ok := PrintValue(v);
      if ok {
        UpdateOffset(u);
      }
    }

    method PrintArray(items: Items) returns (ok: bool)
      requires Valid() && CStringItems(items)
      modifies this, buffer
      ensures buffer == old(buffer) || fresh(buffer)
      ensures ok ==> Valid() && depth == old(depth) && Ends(old(buffer[..offset]) + Print(lib, Array(items), old(depth), format))
      ensures !ok ==> old(offset) + |Print(lib, Array(items), old(depth), format)| + 2 > INT_MAX
      decreases items, 2
    {
      ghost var front := buffer[..offset];
      ok := Emit([OPEN_ARRAY], 1);
      if !ok {
        return;
      }
      depth := depth + 1;
      ok := PrintElements(items);
      if !ok {
        return;
      }
      ArrayDone(front, PrintItems(lib, items, depth, format));
      ok := EmitLast([CLOSE_ARRAY]);
      depth := depth - 1;
    }

    lemma {:induction false} ArrayDone(front: seq<Byte>, t: seq<Byte>)
      ensures front + [OPEN_ARRAY] + t + [CLOSE_ARRAY] == front + ([OPEN_ARRAY] + (t + [CLOSE_ARRAY]))
    {
    }

    method PrintElements(items: Items) returns (ok: bool)
      requires Valid() && CStringItems(items)
      modifies this, buffer
      ensures buffer == old(buffer) || fresh(buffer)
      ensures ok ==> Valid() && depth == old(depth) && offset == old(offset) + |PrintItems(lib, items, old(depth), format)|
      ensures ok ==> buffer[..offset] == old(buffer[..offset]) + PrintItems(lib, items, old(depth), format)
      ensures !ok ==> old(offset) + |PrintItems(lib, items, old(depth), format)| + 2 > INT_MAX
      decreases items, 1
    {
      ghost var front, done, d := buffer[..offset], buffer[..offset], depth;
      var currentElement := items;
      ItemsFirst(lib, items, d, format, front);
      while currentElement.Item?
        invariant Valid() && depth == d && buffer[..offset] == done && (buffer == old(buffer) || fresh(buffer))
        invariant ItemsSoFar(lib, items, currentElement, d, format, front, done) && CStringItems(currentElement)
        invariant currentElement == items || currentElement < items
        decreases currentElement
      {
        ItemsMore(lib, items, currentElement, d, format, front, done);
        ok := PrintElement(currentElement);
        if !ok {
          return;
        }
        done := done + ElementText(lib, currentElement, d, format);
        currentElement := currentElement.next;
      }
      ItemsAll(lib, items, currentElement, d, format, front, done);
      ok := true;
    }

    method PrintElement(items: Items) returns (ok: bool)
      requires Valid() && items.Item? && CStringItems(items)
      modifies this, buffer
      ensures buffer == old(buffer) || fresh(buffer)
      ensures ok ==> Valid() && depth == old(depth)
      ensures ok ==> buffer[..offset] == old(buffer[..offset]) + ElementText(lib, items, depth, format)
      ensures !ok ==> old(offset) + |ElementText(lib, items, old(depth), format)| + 2 > INT_MAX
      decreases items, 0
    {
      ghost var front, t := buffer[..offset], Print(lib, items.value, depth, format);
      ok := PrintAndUpdate(items.value);
      if ok && items.next.Item? {
        var comma := [COMMA] + Optional(format, SPACE);
        ok := EmitEnded(comma);
        Associate(front, t, comma);
      } else {
        assert t + [] == t;
      }
    }

    method PrintObject(ms: Members) returns (ok: bool)
      requires Valid() && CStringMembers(ms)
      modifies this, buffer
      ensures buffer == old(buffer) || fresh(buffer)
      ensures ok ==> Valid() && depth == old(depth) && Ends(old(buffer[..offset]) + Print(lib, Object(ms), old(depth), format))
      ensures !ok ==> old(offset) + |Print(lib, Object(ms), old(depth), format)| + 2 > INT_MAX
      decreases ms, 3
    {
      ghost var front, t := buffer[..offset], PrintMembers(lib, ms, depth + 1, format);
      var brace, close := [OPEN_OBJECT] + Optional(format, LF), Closing(format, depth + 1);
      ghost var whole := Print(lib, Object(ms), depth, format);
      ObjectDone(lib, ms, depth, format, front, brace, t, close);
      ok := PrintBraceAndMembers(ms, brace);
      if ok {
        ok := EmitLast(close);
        depth := depth - 1;
        assert ok ==> Ends(front + brace + t + close);
        assert ok ==> Ends(front + whole);
      }
    }

    method PrintBraceAndMembers(ms: Members, brace: seq<Byte>) returns (ok: bool)
      requires Valid() && CStringMembers(ms)
      modifies this, buffer
      ensures buffer == old(buffer) || fresh(buffer)
      ensures ok ==> Valid() && depth == old(depth) + 1 && offset == old(offset) + |brace| + |PrintMembers(lib, ms, depth, format)|
      ensures ok ==> buffer[..offset] == old(buffer[..offset]) + brace + PrintMembers(lib, ms, depth, format)
      ensures !ok ==> old(offset) + |brace| + |PrintMembers(lib, ms, old(depth) + 1, format)| + 2 > INT_MAX
      decreases ms, 2
    {
      ok := Emit(brace, |brace| + 1);
      if ok {
        depth := depth + 1;
        ok := PrintMemberList(ms);
      }
    }

    lemma {:induction false} ObjectDone(c: Lib, ms: Members, d: nat, fmt: bool, front: seq<Byte>, brace: seq<Byte>, t: seq<Byte>, close: seq<Byte>)
      requires brace == [OPEN_OBJECT] + Optional(fmt, LF) && t == PrintMembers(c, ms, d + 1, fmt) && close == Closing(fmt, d + 1)
      ensures front + brace + t + close == front + Print(c, Object(ms), d, fmt)
      ensures |Print(c, Object(ms), d, fmt)| == |brace| + |t| + |close| && 0 !in close
    {
      Nested(front, [OPEN_OBJECT], Optional(fmt, LF), t, close);
    }

    lemma {:induction false} Nested(front: seq<Byte>, a: seq<Byte>, b: seq<Byte>, c: seq<Byte>, e: seq<Byte>)
      ensures front + (a + b) + c + e == front + (a + (b + (c + e)))
    {
    }

    method PrintMemberList(ms: Members) returns (ok: bool)
      requires Valid() && CStringMembers(ms)
      modifies this, buffer
      ensures buffer == old(buffer) || fresh(buffer)
      ensures ok ==> Valid() && depth == old(depth) && offset == old(offset) + |PrintMembers(lib, ms, old(depth), format)|
      ensures ok ==> buffer[..offset] == old(buffer[..offset]) + PrintMembers(lib, ms, old(depth), format)
      ensures !ok ==> old(offset) + |PrintMembers(lib, ms, old(depth), format)| + 2 > INT_MAX
      decreases ms, 1
    {
      ghost var front, done, d := buffer[..offset], buffer[..offset], depth;
      var currentItem := ms;
      MembersFirst(lib, ms, d, format, front);
      while currentItem.Member?
        invariant Valid() && depth == d && buffer[..offset] == done && (buffer == old(buffer) || fresh(buffer))
        invariant MembersSoFar(lib, ms, currentItem, d, format, front, done) && CStringMembers(currentItem)
        invariant currentItem == ms || currentItem < ms
        decreases currentItem
      {
        MembersMore(lib, ms, currentItem, d, format, front, done);
        ok := PrintMember(currentItem);
        if !ok {
          return;
        }
        done := done + MemberText(lib, currentItem, d, format);
        currentItem := currentItem.next;
      }
      MembersAll(lib, ms, currentItem, d, format, front, done);
      ok := true;
    }

    method PrintMember(ms: Members) returns (ok: bool)
      requires Valid() && ms.Member? && CStringMembers(ms)
      modifies this, buffer
      ensures buffer == old(buffer) || fresh(buffer)
      ensures ok ==> Valid() && depth == old(depth)
      ensures ok ==> buffer[..offset] == old(buffer[..offset]) + MemberText(lib, ms, depth, format)
      ensures !ok ==> old(offset) + |MemberText(lib, ms, old(depth), format)| + 2 > INT_MAX
      decreases ms, 0
    {
      ghost var front, key, t := buffer[..offset], KeyText(ms, depth, format), Print(lib, ms.value, depth, format);
      var end := (if ms.next.Member? then [COMMA] else []) + Optional(format, LF);
      MemberTextIs(lib, ms, depth, format, front, key, t, end);
      ok := PrintKey(ms);
      if !ok {
        return;
      }
      ok := PrintAndUpdate(ms.value);
      if !ok {
        return;
      }
      ok := EmitEnded(end);
    }

    method PrintKey(ms: Members) returns (ok: bool)
      requires Valid() && ms.Member? && CStringMembers(ms)
      modifies `buffer, `offset, buffer
      ensures buffer == old(buffer) || fresh(buffer)
      ensures ok ==> Valid() && offset == old(offset) + |KeyText(ms, depth, format)|
      ensures ok ==> buffer[..offset] == old(buffer[..offset]) + KeyText(ms, depth, format)
      ensures !ok ==> old(offset) + |KeyText(ms, depth, format)| + 2 > INT_MAX
    {
      ghost var front, tabs, name := buffer[..offset], Tabs(format, depth), PrintString(ms.name);
      var colon := [COLON] + Optional(format, TAB);
      KeyTextIs(front, tabs, name, Optional(format, TAB));
      if format {
        ok := Emit(seq(depth, _ => TAB), depth);
        if !ok {
          return;
        }
      }
      assert buffer[..offset] == front + tabs;
      ok := PrintStringPtr(ms.name);
      if !ok {
        return;
      }
      UpdateOffset(front + tabs + name);
      ok := Emit(colon, |colon|);
    }

    lemma {:induction false} KeyTextIs(front: seq<Byte>, tabs: seq<Byte>, name: seq<Byte>, gap: seq<Byte>)
      ensures front + tabs + name + ([COLON] + gap) == front + (tabs + name + [COLON] + gap)
      ensures front + [] == front
    {
    }

    lemma {:induction false} MemberTextIs(c: Lib, ms: Members, d: nat, fmt: bool, front: seq<Byte>, key: seq<Byte>, t: seq<Byte>, end: seq<Byte>)
      requires ms.Member? && key == KeyText(ms, d, fmt) && t == Print(c, ms.value, d, fmt)
      requires end == (if ms.next.Member? then [COMMA] else []) + Optional(fmt, LF)
      ensures front + key + t + end == front + MemberText(c, ms, d, fmt)
      ensures |MemberText(c, ms, d, fmt)| == |key| + |t| + |end|
    {
    }
  }

  /** Prints a value; only a text that an `int` cannot count is refused. */
  method PrintText(v: Value, lib: Lib, format: bool) returns (printed: Option<seq<Byte>>)
    requires LibOk(lib) && CStrings(v)
    ensures printed.Some? ==> printed.value == Print(lib, v, 0, format)
    ensures |Print(lib, v, 0, format)| + 2 <= INT_MAX ==> printed.Some?
  {
    var p := new PrintBuffer(format, lib);
    assert p.buffer[..0] + Print(lib, v, 0, format) == Print(lib, v, 0, format);
    var ok := p.PrintAndUpdate(v);
    return if ok then Some(p.buffer[..p.offset]) else None;
  }
}
