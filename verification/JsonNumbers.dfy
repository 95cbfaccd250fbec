module JsonNumbers {
  import opened AddrTree
  import opened NetUtil

  // ----- the numbers of section 6 of RFC 8259

  const DOT: Byte := 46
  const PLUS: Byte := 43
  const DASH: Byte := 45
  const SMALL_E: Byte := 101
  const CAPITAL_E: Byte := 69

  /** A letter, a sign or none, and digits. */
  datatype Exponent = Exponent(letter: Byte, sign: seq<Byte>, digits: seq<Byte>)

  /** Minus or none, the integer, a fraction or none, an exponent or none. */
  datatype Numeral = Numeral(minus: bool, whole: seq<Byte>, fraction: Option<seq<Byte>>, exponent: Option<Exponent>)

  predicate AllDigits(t: seq<Byte>) { t != [] && forall b <- t :: 48 <= b <= 57 }

  /** No leading zero but in zero itself. */
  predicate Grammatical(m: Numeral) {
    && AllDigits(m.whole) && (m.whole[0] == 48 ==> |m.whole| == 1)
    && (m.fraction.Some? ==> AllDigits(m.fraction.value))
    && (m.exponent.Some? ==>
          var e := m.exponent.value;
          (e.letter == SMALL_E || e.letter == CAPITAL_E) && (e.sign == [] || e.sign == [PLUS] || e.sign == [DASH]) && AllDigits(e.digits))
  }

  function TextOf(m: Numeral): seq<Byte> {
    (if m.minus then [DASH] else []) + m.whole
    + (if m.fraction.Some? then [DOT] + m.fraction.value else [])
    + (if m.exponent.Some? then [m.exponent.value.letter] + m.exponent.value.sign + m.exponent.value.digits else [])
  }

  ghost predicate NumberText(t: seq<Byte>) { exists m {:trigger TextOf(m)} :: Grammatical(m) && TextOf(m) == t }

  /** Some number contains this byte. */
  ghost predicate InNumbers(b: Byte) { exists m {:trigger TextOf(m)} :: Grammatical(m) && b in TextOf(m) }

  /** The bytes that numbers are made of. */
  lemma {:induction false} NumberBytes(m: Numeral, b: Byte)
    requires Grammatical(m) && b in TextOf(m)
    ensures 48 <= b <= 57 || b == 43 || b == 45 || b == 46 || b == 69 || b == 101
  {
    var front, point := if m.minus then [DASH] else [], if m.fraction.Some? then [DOT] + m.fraction.value else [];
    if m.exponent.Some? {
      assert b in front || b in m.whole || b in point || b in [m.exponent.value.letter] || b in m.exponent.value.sign || b in m.exponent.value.digits;
    } else {
      assert b in front || b in m.whole || b in point;
    }
  }

  /** A number with this byte in it. */
  lemma {:induction false} NumberWith(b: Byte)
    requires 48 <= b <= 57 || b == 43 || b == 45 || b == 46 || b == 69 || b == 101
    ensures InNumbers(b)
  {
    var letter: Byte := if b == 69 then 69 else 101;
    var sign: seq<Byte> := if b == 45 then [45] else [43];
    var digit: Byte := if 48 <= b <= 57 then b else 49;
    var m := Numeral(false, [digit], Some([48]), Some(Exponent(letter, sign, [49])));
    var t := TextOf(m);
    assert t == [digit, 46, 48, letter] + sign + [49];
    assert Grammatical(m) && t[0] == digit && t[1] == 46 && t[3] == letter && t[4] == sign[0];
  }

  lemma {:induction false} BytesExactly(b: Byte)
    ensures InNumbers(b) <==> 48 <= b <= 57 || b == 43 || b == 45 || b == 46 || b == 69 || b == 101
  {
    if InNumbers(b) {
      var m :| Grammatical(m) && b in TextOf(m);
      NumberBytes(m, b);
    }
    if 48 <= b <= 57 || b == 43 || b == 45 || b == 46 || b == 69 || b == 101 {
      NumberWith(b);
    }
  }

  /** A number begins with a minus or a digit. */
  lemma {:induction false} NumberBegins(m: Numeral)
    requires Grammatical(m)
    ensures TextOf(m) != [] && (TextOf(m)[0] == 45 || 48 <= TextOf(m)[0] <= 57)
  {
    var front, rest := if m.minus then [DASH] else [], TextOf(m);
    assert (front + m.whole)[0] == if m.minus then 45 else m.whole[0];
    assert rest[0] == (front + m.whole)[0];
    assert m.whole[0] in m.whole;
  }

  /** The value of decimal digits. */
  function DigitsValue(t: seq<Byte>): int {
    if t == [] then 0 else DigitsValue(t[..|t| - 1]) * 10 + (t[|t| - 1] as int - 48)
  }
}
