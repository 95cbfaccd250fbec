/** The parsing functions one step at a time, with their definitions folded: each predicate states one result, and the lemmas
    say how it follows from the results of the parts. */
module JsonReading {
  import opened AddrTree
  import opened NetUtil
  import opened Json

  ghost predicate AtNow(s: seq<Byte>, i: nat, t: seq<Byte>, k: int) { StartsAt(s, i, t) }

  /** `StartsAt` with its definition folded. */
  ghost predicate At(s: seq<Byte>, i: nat, t: seq<Byte>) {
    forall k {:trigger AtNow(s, i, t, k)} :: AtNow(s, i, t, k)
  }

  lemma {:induction false} AtSplit(s: seq<Byte>, i: nat, a: seq<Byte>, b: seq<Byte>)
    requires At(s, i, a + b)
    ensures At(s, i, a) && At(s, i + |a|, b) && i + |a| + |b| <= |s|
  {
    assert AtNow(s, i, a + b, 0);
    assert s[i..i + |a|] == s[i..i + |a + b|][..|a|];
    assert s[i + |a|..i + |a| + |b|] == s[i..i + |a + b|][|a|..];
  }

  lemma {:induction false} AtByte(s: seq<Byte>, i: nat, t: seq<Byte>, j: nat)
    requires At(s, i, t) && j < |t|
    ensures i + j < i + |t| <= |s| && s[i + j] == t[j]
  {
    assert AtNow(s, i, t, 0);
    assert s[i..i + |t|][j] == t[j];
  }

  lemma {:induction false} AtStart(s: seq<Byte>, i: nat, t: seq<Byte>)
    requires StartsAt(s, i, t) && t != []
    ensures i < |s| && s[i] == t[0]
  {
    assert s[i..i + |t|][0] == t[0];
  }

  lemma {:induction false} Starts(s: seq<Byte>, i: nat)
    requires i < |s|
    ensures StartsAt(s, i, NULL_TEXT) ==> s[i] == 110
    ensures StartsAt(s, i, FALSE_TEXT) ==> s[i] == 102
    ensures StartsAt(s, i, TRUE_TEXT) ==> s[i] == 116
  {
    if StartsAt(s, i, NULL_TEXT) { AtStart(s, i, NULL_TEXT); }
    if StartsAt(s, i, FALSE_TEXT) { AtStart(s, i, FALSE_TEXT); }
    if StartsAt(s, i, TRUE_TEXT) { AtStart(s, i, TRUE_TEXT); }
  }

  ghost predicate ReadsNow(lib: Lib, s: seq<Byte>, i: nat, depth: nat, r: Option<(Value, nat)>, k: int) {
    LibOk(lib) && Terminated(s) && i < |s| && ParseValue(lib, s, i, depth) == r
  }

  /** Parsing a value at `i` gives `r`. */
  ghost predicate Reads(lib: Lib, s: seq<Byte>, i: nat, depth: nat, r: Option<(Value, nat)>) {
    forall k {:trigger ReadsNow(lib, s, i, depth, r, k)} :: ReadsNow(lib, s, i, depth, r, k)
  }

  ghost predicate NamedNow(s: seq<Byte>, i: nat, name: seq<Byte>, e: nat, k: int) {
    i < |s| && s[i] == QUOTE && ParseString(s, i) == Some((name, e))
  }

  /** Parsing a string at `i` gives `name` and stops at `e`. */
  ghost predicate Named(s: seq<Byte>, i: nat, name: seq<Byte>, e: nat) {
    forall k {:trigger NamedNow(s, i, name, e, k)} :: NamedNow(s, i, name, e, k)
  }

  ghost predicate ReadsItemsNow(lib: Lib, s: seq<Byte>, i: nat, depth: nat, r: Option<(Items, nat)>, k: int) {
    LibOk(lib) && Terminated(s) && i < |s| && ParseItems(lib, s, i, depth) == r
  }

  ghost predicate ReadsItems(lib: Lib, s: seq<Byte>, i: nat, depth: nat, r: Option<(Items, nat)>) {
    forall k {:trigger ReadsItemsNow(lib, s, i, depth, r, k)} :: ReadsItemsNow(lib, s, i, depth, r, k)
  }

  ghost predicate ReadsMembersNow(lib: Lib, s: seq<Byte>, i: nat, depth: nat, r: Option<(Members, nat)>, k: int) {
    LibOk(lib) && Terminated(s) && i < |s| && ParseMembers(lib, s, i, depth) == r
  }

  ghost predicate ReadsMembers(lib: Lib, s: seq<Byte>, i: nat, depth: nat, r: Option<(Members, nat)>) {
    forall k {:trigger ReadsMembersNow(lib, s, i, depth, r, k)} :: ReadsMembersNow(lib, s, i, depth, r, k)
  }

  lemma {:induction false} ReadNextItem(lib: Lib, s: seq<Byte>, k: nat, depth: nat, r: Option<(Value, nat)>, more: Option<(Items, nat)>)
    requires k < |s| && Reads(lib, s, Skip(s, k), depth, r)
    requires r.Some? ==> r.value.1 < |s| && var j := Skip(s, r.value.1); j + 1 < |s| && s[j] == COMMA && ReadsItems(lib, s, j + 1, depth, more)
    ensures ReadsItems(lib, s, k, depth, if r.None? || more.None? then None else Some((Item(r.value.0, more.value.0), more.value.1)))
  {
    assert ReadsNow(lib, s, Skip(s, k), depth, r, 0);
    if r.Some? {
      assert ReadsItemsNow(lib, s, Skip(s, r.value.1) + 1, depth, more, 0);
    }
  }

  lemma {:induction false} ReadLastItem(lib: Lib, s: seq<Byte>, k: nat, depth: nat, r: Option<(Value, nat)>)
    requires k < |s| && Reads(lib, s, Skip(s, k), depth, r)
    requires r.Some? ==> r.value.1 < |s| && s[Skip(s, r.value.1)] != COMMA
    ensures ReadsItems(lib, s, k, depth, if r.Some? && s[Skip(s, r.value.1)] == CLOSE_ARRAY
                                         then Some((Item(r.value.0, NoItem), Skip(s, r.value.1) + 1)) else None)
  {
    assert ReadsNow(lib, s, Skip(s, k), depth, r, 0);
  }

  lemma {:induction false} IsArray(lib: Lib, s: seq<Byte>, i: nat, depth: nat)
    requires LibOk(lib) && Terminated(s) && i < |s| && s[i] == OPEN_ARRAY
    ensures ParseValue(lib, s, i, depth) == ParseArray(lib, s, i, depth)
  {
    Starts(s, i);
  }

  lemma {:induction false} IsObject(lib: Lib, s: seq<Byte>, i: nat, depth: nat)
    requires LibOk(lib) && Terminated(s) && i < |s| && s[i] == OPEN_OBJECT
    ensures ParseValue(lib, s, i, depth) == ParseObject(lib, s, i, depth)
  {
    Starts(s, i);
  }

  lemma {:induction false} ReadArray(lib: Lib, s: seq<Byte>, i: nat, q: nat, depth: nat, items: Option<(Items, nat)>)
    requires LibOk(lib) && Terminated(s) && i + 1 < |s| && s[i] == OPEN_ARRAY && Skip(s, i + 1) == q
    requires depth < NESTING_LIMIT ==>
               if s[q] == CLOSE_ARRAY then items == Some((NoItem, q + 1)) else ReadsItems(lib, s, q, depth + 1, items)
    ensures Reads(lib, s, i, depth, if depth >= NESTING_LIMIT || items.None? then None else Some((Array(items.value.0), items.value.1)))
  {
    IsArray(lib, s, i, depth);
    if s[q] != CLOSE_ARRAY && depth < NESTING_LIMIT {
      assert ReadsItemsNow(lib, s, q, depth + 1, items, 0);
    }
  }

  /** From `at` on there is a name that ends at `n`, a colon, and a value that begins at `u`. */
  ghost predicate NamedValue(s: seq<Byte>, at: nat, name: seq<Byte>, n: nat, u: nat) {
    && at < |s| && Named(s, Skip(s, at), name, n) && n < |s| && s[Skip(s, n)] == COLON
    && Skip(s, n) + 1 < |s| && Skip(s, Skip(s, n) + 1) == u
  }

  ghost predicate ReadsMemberNow(lib: Lib, s: seq<Byte>, i: nat, depth: nat, r: Option<(seq<Byte>, Value, nat)>, k: int) {
    LibOk(lib) && Terminated(s) && i < |s| && ParseMember(lib, s, i, depth) == r
  }

  ghost predicate ReadsMember(lib: Lib, s: seq<Byte>, i: nat, depth: nat, r: Option<(seq<Byte>, Value, nat)>) {
    forall k {:trigger ReadsMemberNow(lib, s, i, depth, r, k)} :: ReadsMemberNow(lib, s, i, depth, r, k)
  }

  ghost function Pair(name: seq<Byte>, r: Option<(Value, nat)>): Option<(seq<Byte>, Value, nat)> {
    if r.None? then None else Some((name, r.value.0, r.value.1))
  }

  lemma {:induction false} ReadMember(lib: Lib, s: seq<Byte>, k: nat, name: seq<Byte>, n: nat, u: nat, depth: nat, r: Option<(Value, nat)>)
    requires NamedValue(s, k, name, n, u) && Reads(lib, s, u, depth, r)
    ensures ReadsMember(lib, s, k, depth, Pair(name, r))
  {
    assert NamedNow(s, Skip(s, k), name, n, 0);
    assert ReadsNow(lib, s, u, depth, r, 0);
  }

  lemma {:induction false} ReadNextMember(lib: Lib, s: seq<Byte>, k: nat, name: seq<Byte>, n: nat, u: nat, depth: nat,
                                          r: Option<(Value, nat)>, more: Option<(Members, nat)>)
    requires NamedValue(s, k, name, n, u) && Reads(lib, s, u, depth, r)
    requires r.Some? ==> r.value.1 < |s| && var j := Skip(s, r.value.1); j + 1 < |s| && s[j] == COMMA && ReadsMembers(lib, s, j + 1, depth, more)
    ensures ReadsMembers(lib, s, k, depth,
                         if r.None? || more.None? then None else Some((Member(name, r.value.0, more.value.0), more.value.1)))
  {
    ReadMember(lib, s, k, name, n, u, depth, r);
    assert ReadsMemberNow(lib, s, k, depth, Pair(name, r), 0);
    if r.Some? {
      assert ReadsMembersNow(lib, s, Skip(s, r.value.1) + 1, depth, more, 0);
    }
  }

  lemma {:induction false} ReadLastMember(lib: Lib, s: seq<Byte>, k: nat, name: seq<Byte>, n: nat, u: nat, depth: nat, r: Option<(Value, nat)>)
    requires NamedValue(s, k, name, n, u) && Reads(lib, s, u, depth, r)
    requires r.Some? ==> r.value.1 < |s| && s[Skip(s, r.value.1)] != COMMA
    ensures ReadsMembers(lib, s, k, depth, if r.Some? && s[Skip(s, r.value.1)] == CLOSE_OBJECT
                                           then Some((Member(name, r.value.0, NoMember), Skip(s, r.value.1) + 1)) else None)
  {
    ReadMember(lib, s, k, name, n, u, depth, r);
    assert ReadsMemberNow(lib, s, k, depth, Pair(name, r), 0);
  }

  lemma {:induction false} ReadNoName(lib: Lib, s: seq<Byte>, k: nat, depth: nat)
    requires LibOk(lib) && Terminated(s) && k < |s|
    requires match ParseString(s, Skip(s, k))
             case None => true
             case Some((_, n)) => n < |s| && s[Skip(s, n)] != COLON
    ensures ReadsMembers(lib, s, k, depth, None)
  {
    assert ParseMember(lib, s, k, depth) == None;
  }

  lemma {:induction false} ReadObject(lib: Lib, s: seq<Byte>, i: nat, q: nat, depth: nat, ms: Option<(Members, nat)>)
    requires LibOk(lib) && Terminated(s) && i + 1 < |s| && s[i] == OPEN_OBJECT && Skip(s, i + 1) == q
    requires depth < NESTING_LIMIT ==>
               if s[q] == CLOSE_OBJECT then ms == Some((NoMember, q + 1)) else ReadsMembers(lib, s, q, depth + 1, ms)
    ensures Reads(lib, s, i, depth, if depth >= NESTING_LIMIT || ms.None? then None else Some((Object(ms.value.0), ms.value.1)))
  {
    IsObject(lib, s, i, depth);
    if s[q] != CLOSE_OBJECT && depth < NESTING_LIMIT {
      assert ReadsMembersNow(lib, s, q, depth + 1, ms, 0);
    }
  }

  lemma {:induction false} ReadString(lib: Lib, s: seq<Byte>, i: nat, depth: nat, str: seq<Byte>, e: nat)
    requires LibOk(lib) && Terminated(s) && Named(s, i, str, e)
    ensures Reads(lib, s, i, depth, Some((Str(str), e)))
  {
    assert NamedNow(s, i, str, e, 0);
    Starts(s, i);
  }

  lemma {:induction false} ReadNumber(lib: Lib, s: seq<Byte>, i: nat, depth: nat)
    requires LibOk(lib) && Terminated(s) && i < |s| && (s[i] == MINUS || 48 <= s[i] <= 57)
    ensures Reads(lib, s, i, depth, ParseNumber(lib, s, i))
  {
    Starts(s, i);
  }

  lemma {:induction false} ReadBeyond(lib: Lib, s: seq<Byte>, i: nat, depth: nat, v: Value, e: nat)
    requires Reads(lib, s, i, depth, Some((v, e)))
    ensures i < e < |s|
  {
    assert ReadsNow(lib, s, i, depth, Some((v, e)), 0);
  }

  lemma {:induction false} ReadLiteral(lib: Lib, s: seq<Byte>, i: nat, depth: nat)
    requires LibOk(lib) && Terminated(s) && i < |s|
    ensures StartsAt(s, i, NULL_TEXT) ==> Reads(lib, s, i, depth, Some((Null, i + 4)))
    ensures StartsAt(s, i, FALSE_TEXT) ==> Reads(lib, s, i, depth, Some((Bool(false), i + 5)))
    ensures StartsAt(s, i, TRUE_TEXT) ==> Reads(lib, s, i, depth, Some((Bool(true), i + 4)))
  {
    Starts(s, i);
  }

  lemma {:induction false} ReadQuoted(lib: Lib, s: seq<Byte>, i: nat, depth: nat)
    requires LibOk(lib) && Terminated(s) && i < |s| && s[i] == QUOTE
    ensures Reads(lib, s, i, depth, match ParseString(s, i) case None => None case Some((str, e)) => Some((Str(str), e)))
  {
    Starts(s, i);
  }

  /** Nothing else begins a value. */
  lemma {:induction false} ReadNothing(lib: Lib, s: seq<Byte>, i: nat, depth: nat)
    requires LibOk(lib) && Terminated(s) && i < |s|
    requires !StartsAt(s, i, NULL_TEXT) && !StartsAt(s, i, FALSE_TEXT) && !StartsAt(s, i, TRUE_TEXT)
    requires s[i] != QUOTE && s[i] != MINUS && !(48 <= s[i] <= 57) && s[i] != OPEN_ARRAY && s[i] != OPEN_OBJECT
    ensures Reads(lib, s, i, depth, None)
  {
  }

  lemma {:induction false} ReadTooDeep(lib: Lib, s: seq<Byte>, i: nat, depth: nat)
    requires LibOk(lib) && Terminated(s) && i + 1 < |s| && (s[i] == OPEN_ARRAY || s[i] == OPEN_OBJECT) && depth >= NESTING_LIMIT
    ensures Reads(lib, s, i, depth, None)
  {
    if s[i] == OPEN_ARRAY {
      ReadArray(lib, s, i, Skip(s, i + 1), depth, None);
    } else {
      ReadObject(lib, s, i, Skip(s, i + 1), depth, None);
    }
  }

  lemma {:induction false} ReadNoItem(lib: Lib, s: seq<Byte>, i: nat, q: nat, depth: nat)
    requires LibOk(lib) && Terminated(s) && i + 1 < |s| && s[i] == OPEN_ARRAY && Skip(s, i + 1) == q && s[q] == CLOSE_ARRAY
    requires depth < NESTING_LIMIT
    ensures Reads(lib, s, i, depth, Some((Array(NoItem), q + 1)))
  {
    ReadArray(lib, s, i, q, depth, Some((NoItem, q + 1)));
  }

  lemma {:induction false} ReadNoMember(lib: Lib, s: seq<Byte>, i: nat, q: nat, depth: nat)
    requires LibOk(lib) && Terminated(s) && i + 1 < |s| && s[i] == OPEN_OBJECT && Skip(s, i + 1) == q && s[q] == CLOSE_OBJECT
    requires depth < NESTING_LIMIT
    ensures Reads(lib, s, i, depth, Some((Object(NoMember), q + 1)))
  {
    ReadObject(lib, s, i, q, depth, Some((NoMember, q + 1)));
  }

  lemma {:induction false} ReadSomeItems(lib: Lib, s: seq<Byte>, i: nat, q: nat, depth: nat, items: Items, e: nat)
    requires LibOk(lib) && Terminated(s) && i + 1 < |s| && s[i] == OPEN_ARRAY && Skip(s, i + 1) == q && s[q] != CLOSE_ARRAY
    requires depth < NESTING_LIMIT && ReadsItems(lib, s, q, depth + 1, Some((items, e)))
    ensures Reads(lib, s, i, depth, Some((Array(items), e)))
  {
    ReadArray(lib, s, i, q, depth, Some((items, e)));
  }

  lemma {:induction false} ReadBadItems(lib: Lib, s: seq<Byte>, i: nat, q: nat, depth: nat)
    requires LibOk(lib) && Terminated(s) && i + 1 < |s| && s[i] == OPEN_ARRAY && Skip(s, i + 1) == q && s[q] != CLOSE_ARRAY
    requires depth < NESTING_LIMIT && ReadsItems(lib, s, q, depth + 1, None)
    ensures Reads(lib, s, i, depth, None)
  {
    ReadArray(lib, s, i, q, depth, None);
  }

  lemma {:induction false} ReadSomeMembers(lib: Lib, s: seq<Byte>, i: nat, q: nat, depth: nat, ms: Members, e: nat)
    requires LibOk(lib) && Terminated(s) && i + 1 < |s| && s[i] == OPEN_OBJECT && Skip(s, i + 1) == q && s[q] != CLOSE_OBJECT
    requires depth < NESTING_LIMIT && ReadsMembers(lib, s, q, depth + 1, Some((ms, e)))
    ensures Reads(lib, s, i, depth, Some((Object(ms), e)))
  {
    ReadObject(lib, s, i, q, depth, Some((ms, e)));
  }

  lemma {:induction false} ReadBadMembers(lib: Lib, s: seq<Byte>, i: nat, q: nat, depth: nat)
    requires LibOk(lib) && Terminated(s) && i + 1 < |s| && s[i] == OPEN_OBJECT && Skip(s, i + 1) == q && s[q] != CLOSE_OBJECT
    requires depth < NESTING_LIMIT && ReadsMembers(lib, s, q, depth + 1, None)
    ensures Reads(lib, s, i, depth, None)
  {
    ReadObject(lib, s, i, q, depth, None);
  }
}
