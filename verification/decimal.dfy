/**
 Reading the stored text as a number, the way `parseFloat` treats the texts
 the keystroke filter lets through. Such a text splits uniquely into a sign,
 whole digits, an optional point and fraction digits (`Lex`/`Spell`);
 parsing fails exactly when both digit runs are empty and otherwise yields
 the signed decimal value.
 */
module Decimal {
  import opened Filter

  datatype Option<T> = None | Some(value: T)

  /** A filtered text taken apart: `-`? whole `.`? fraction. */
  datatype Numeral = Numeral(negative: bool, whole: string, point: bool, fraction: string)

  /** Both digit runs are digits, and fraction digits only follow a point. */
  predicate ValidNumeral(n: Numeral) {
    AllDigits(n.whole) && AllDigits(n.fraction) && (n.fraction != "" ==> n.point)
  }

  /** The text of a numeral after its sign: whole digits, then the point,
      if any, and the fraction digits. */
  function Unsigned(n: Numeral): string {
    n.whole + (if n.point then "." else "") + n.fraction
  }

  /** The text a numeral is written as. */
  function Spell(n: Numeral): string {
    (if n.negative then "-" else "") + Unsigned(n)
  }

  /** A run of digits in front of a `\d*\.?\d*` text keeps it in `\d*\.?\d*`. */
  lemma {:induction false} DigitsThenUnsigned(w: string, rest: string)
    requires AllDigits(w) && MatchesUnsigned(rest)
    ensures MatchesUnsigned(w + rest)
    decreases |w|
  {
    if |w| > 0 {
      assert (w + rest)[0] == w[0];
      assert (w + rest)[1..] == w[1..] + rest;
      DigitsThenUnsigned(w[1..], rest);
    } else {
      assert w + rest == rest;
    }
  }

  /** The unsigned text of a valid numeral does not start with a sign. */
  lemma UnsignedStart(n: Numeral)
    requires ValidNumeral(n)
    ensures |Unsigned(n)| > 0 ==> Unsigned(n)[0] != '-'
  {
    if |n.whole| > 0 {
      assert Unsigned(n)[0] == n.whole[0];
    } else if n.point {
      assert Unsigned(n)[0] == '.';
    } else {
      assert Unsigned(n) == n.fraction;
    }
  }

  /** A valid numeral spells a text the filter lets through. */
  lemma SpellMatches(n: Numeral)
    requires ValidNumeral(n)
    ensures Matches(Spell(n))
  {
    var tail := (if n.point then "." else "") + n.fraction;
    assert MatchesUnsigned(tail) by {
      if n.point {
        assert tail[0] == '.' && tail[1..] == n.fraction;
      } else {
        assert tail == "";
      }
    }
    DigitsThenUnsigned(n.whole, tail);
    assert Unsigned(n) == n.whole + tail;
    UnsignedStart(n);
    if n.negative {
      assert Spell(n)[1..] == Unsigned(n);
    } else {
      assert Spell(n) == Unsigned(n);
    }
  }

  /** Position of the first point in `s`, or `|s|` when there is none. */
  function PointIndex(s: string): (k: nat)
    ensures k <= |s|
    ensures forall i :: 0 <= i < k ==> s[i] != '.'
    ensures k < |s| ==> s[k] == '.'
  {
    if |s| == 0 || s[0] == '.' then 0 else 1 + PointIndex(s[1..])
  }

  /** Cutting a `\d*\.?\d*` text at its first point leaves digits on both
      sides. */
  lemma {:induction false} SplitAtPoint(u: string)
    requires MatchesUnsigned(u)
    ensures AllDigits(u[..PointIndex(u)])
    ensures PointIndex(u) < |u| ==> AllDigits(u[PointIndex(u) + 1..])
    decreases |u|
  {
    if |u| > 0 && u[0] != '.' {
      SplitAtPoint(u[1..]);
      var k := PointIndex(u);
      assert u[..k] == [u[0]] + u[1..][..k - 1];
      assert k < |u| ==> u[k + 1..] == u[1..][k..];
    }
  }

  /** Cutting a text at a point position and gluing the pieces back
      together as a numeral's unsigned text gives the text back. */
  lemma CutAtPoint(negative: bool, u: string, k: nat)
    requires k <= |u|
    requires k < |u| ==> u[k] == '.'
    ensures Unsigned(Numeral(negative, u[..k], k < |u|, if k < |u| then u[k + 1..] else "")) == u
  {
    if k < |u| {
      assert u == u[..k] + [u[k]] + u[k + 1..];
    } else {
      assert u[..k] == u;
    }
  }

  /** Splits a filtered text into its numeral; spelling the numeral gives
      the text back. */
  function Lex(s: string): (n: Numeral)
    requires Matches(s)
    ensures ValidNumeral(n)
    ensures Spell(n) == s
  {
    var negative := |s| > 0 && s[0] == '-';
    var u := if negative then s[1..] else s;
    var k := PointIndex(u);
    SplitAtPoint(u);
    CutAtPoint(negative, u, k);
    assert negative ==> s == "-" + u by {
      if negative {
        assert s == [s[0]] + s[1..];
      }
    }
    Numeral(negative, u[..k], k < |u|, if k < |u| then u[k + 1..] else "")
  }

  /** Where the point sits in the unsigned text of a valid numeral, and
      what lies on either side of it. */
  lemma PointOfUnsigned(n: Numeral)
    requires ValidNumeral(n)
    ensures PointIndex(Unsigned(n)) == |n.whole|
    ensures Unsigned(n)[..|n.whole|] == n.whole
    ensures n.point <==> |n.whole| < |Unsigned(n)|
    ensures n.point ==> Unsigned(n)[|n.whole| + 1..] == n.fraction
  {
    var u := Unsigned(n);
    assert forall i :: 0 <= i < |n.whole| ==> u[i] == n.whole[i];
    if n.point {
      assert u[|n.whole|] == '.';
      assert u[|n.whole| + 1..] == n.fraction;
    } else {
      assert u == n.whole;
    }
    assert u[..|n.whole|] == n.whole;
  }

  /** Two valid numerals with the same spelling are the same numeral. */
  lemma SpellInjective(n: Numeral, m: Numeral)
    requires ValidNumeral(n) && ValidNumeral(m)
    requires Spell(n) == Spell(m)
    ensures n == m
  {
    SignOfSpelling(n);
    SignOfSpelling(m);
    assert Unsigned(n) == Unsigned(m) by {
      if n.negative {
        assert Unsigned(n) == Spell(n)[1..];
        assert Unsigned(m) == Spell(m)[1..];
      } else {
        assert Unsigned(n) == Spell(n);
        assert Unsigned(m) == Spell(m);
      }
    }
    PointOfUnsigned(n);
    PointOfUnsigned(m);
  }

  /** Lexing the spelling of a numeral gives the numeral back, so each
      filtered text has exactly one numeral. */
  lemma LexSpell(n: Numeral)
    requires ValidNumeral(n)
    ensures Matches(Spell(n))
    ensures Lex(Spell(n)) == n
  {
    SpellMatches(n);
    SpellInjective(Lex(Spell(n)), n);
  }

  function DigitValue(c: char): nat
    requires IsDigit(c)
  {
    c as int - '0' as int
  }

  function Pow10(e: nat): (r: nat)
    ensures r > 0
  {
    if e == 0 then 1 else 10 * Pow10(e - 1)
  }

  /** The whole number a run of decimal digits denotes, read left to right. */
  function NatOf(s: string): nat
    requires AllDigits(s)
  {
    if |s| == 0 then 0 else NatOf(s[..|s| - 1]) * 10 + DigitValue(s[|s| - 1])
  }

  /** `x` moved `e` decimal places to the right of the point. */
  function Shifted(x: nat, e: nat): real {
    x as real / Pow10(e) as real
  }

  function Signed(negative: bool, x: real): real {
    if negative then -x else x
  }

  /** The value of a numeral: whole part plus fraction digits over a power
      of ten, negated under a minus sign. */
  function Value(n: Numeral): real
    requires ValidNumeral(n)
  {
    Signed(n.negative, NatOf(n.whole) as real + Shifted(NatOf(n.fraction), |n.fraction|))
  }

  predicate HasDigit(s: string) {
    exists i :: 0 <= i < |s| && IsDigit(s[i])
  }

  /** A spelled numeral contains a digit exactly when one of its digit runs
      is non-empty. */
  lemma HasDigitIffRuns(n: Numeral)
    requires ValidNumeral(n)
    ensures HasDigit(Spell(n)) <==> n.whole != "" || n.fraction != ""
  {
    var s := Spell(n);
    var off := if n.negative then 1 else 0;
    var p := if n.point then 1 else 0;
    if n.whole != "" {
      assert IsDigit(s[off]) by { assert s[off] == n.whole[0]; }
    } else if n.fraction != "" {
      assert IsDigit(s[off + p]) by { assert s[off + p] == n.fraction[0]; }
    } else {
      assert s == (if n.negative then "-" else "") + (if n.point then "." else "");
    }
  }

  /** A numeral's value is never positive under a minus sign and never
      negative without one. */
  lemma ValueSign(n: Numeral)
    requires ValidNumeral(n)
    ensures n.negative ==> Value(n) <= 0.0
    ensures !n.negative ==> Value(n) >= 0.0
  {
    ShiftedNonNegative(NatOf(n.fraction), |n.fraction|);
  }

  /** The spelling of a valid numeral starts with a minus sign exactly when
      the numeral is negative. */
  lemma SignOfSpelling(n: Numeral)
    requires ValidNumeral(n)
    ensures |Spell(n)| > 0 && Spell(n)[0] == '-' <==> n.negative
  {
    UnsignedStart(n);
    if !n.negative {
      assert Spell(n) == Unsigned(n);
    }
  }

  /** `parseFloat` on a filtered text: no number when the text holds no
      digit (`""`, `"-"`, `"."`, `"-."`), otherwise the signed value. */
  function Parse(s: string): (r: Option<real>)
    requires Matches(s)
    ensures r.None? <==> !HasDigit(s)
    ensures r.Some? ==> |s| > 0
    ensures r.Some? && s[0] == '-' ==> r.value <= 0.0
    ensures r.Some? && s[0] != '-' ==> r.value >= 0.0
  {
    var n := Lex(s);
    HasDigitIffRuns(n);
    ValueSign(n);
    SignOfSpelling(n);
    if n.whole == "" && n.fraction == "" then None else Some(Value(n))
  }

  /** Parsing the spelling of a valid numeral reads that numeral back: no
      number when both digit runs are empty, its value otherwise. */
  lemma ParseNumeral(n: Numeral)
    requires ValidNumeral(n)
    ensures Matches(Spell(n))
    ensures Parse(Spell(n)) == if n.whole == "" && n.fraction == "" then None else Some(Value(n))
  {
    SpellMatches(n);
    LexSpell(n);
  }

  lemma {:induction false} NatOfAppend(a: string, b: string)
    requires AllDigits(a) && AllDigits(b)
    ensures AllDigits(a + b)
    ensures NatOf(a + b) == NatOf(a) * Pow10(|b|) + NatOf(b)
    decreases |b|
  {
    DigitsAppend(a, b);
    if |b| == 0 {
      assert a + b == a;
    } else {
      var b' := b[..|b| - 1];
      var c := b[|b| - 1];
      NatOfAppend(a, b');
      assert (a + b)[..|a + b| - 1] == a + b';
      assert (a + b)[|a + b| - 1] == c;
      var x, y, q, d := NatOf(a), NatOf(b'), Pow10(|b'|), DigitValue(c);
      assert NatOf(a + b) == (x * q + y) * 10 + d;
      assert NatOf(b) == y * 10 + d;
      assert Pow10(|b|) == q * 10;
      ShiftDigit(x, q, y, d);
    }
  }

  lemma DigitsAppend(a: string, b: string)
    requires AllDigits(a) && AllDigits(b)
    ensures AllDigits(a + b)
  {
    forall i | 0 <= i < |a + b|
      ensures IsDigit((a + b)[i])
    {
      if i >= |a| {
        assert (a + b)[i] == b[i - |a|];
      }
    }
  }

  /** Appending one digit distributes over a whole-times-power-plus-rest split. */
  lemma ShiftDigit(x: nat, q: nat, y: nat, d: nat)
    ensures (x * q + y) * 10 + d == x * (q * 10) + (y * 10 + d)
  {
  }

  lemma ShiftedNonNegative(x: nat, e: nat)
    ensures Shifted(x, e) >= 0.0
  {
    var p := Pow10(e) as real;
    assert x as real / p >= 0.0;
  }

  lemma CastLinear(x: nat, q: nat, y: nat)
    ensures (x * q + y) as real == x as real * q as real + y as real
  {
  }

  /** Shifting `x * 10^e + y` by `e` places leaves `x` before the point. */
  lemma ShiftedAdd(x: nat, y: nat, e: nat)
    ensures Shifted(x * Pow10(e) + y, e) == x as real + Shifted(y, e)
  {
    var q := Pow10(e);
    var p := q as real;
    CastLinear(x, q, y);
    assert (x as real * p + y as real) / p == x as real + y as real / p;
  }

  /** Reference reading of a numeral: drop the point, read all digits as one
      whole number, and shift it right by the number of fraction digits. */
  lemma ValueIsShiftedDigits(n: Numeral)
    requires ValidNumeral(n)
    ensures AllDigits(n.whole + n.fraction)
    ensures Value(n) == Signed(n.negative, Shifted(NatOf(n.whole + n.fraction), |n.fraction|))
  {
    NatOfAppend(n.whole, n.fraction);
    ShiftedAdd(NatOf(n.whole), NatOf(n.fraction), |n.fraction|);
  }

  /** Parsing the spelling of a numeral that has a digit yields its digits
      with the point removed, shifted by the fraction length, and signed. */
  lemma ParseSpelling(n: Numeral)
    requires ValidNumeral(n)
    requires n.whole != "" || n.fraction != ""
    ensures AllDigits(n.whole + n.fraction)
    ensures Matches(Spell(n))
    ensures Parse(Spell(n)) == Some(Signed(n.negative, Shifted(NatOf(n.whole + n.fraction), |n.fraction|)))
  {
    LexSpell(n);
    ValueIsShiftedDigits(n);
  }

  /** The parse result depends only on the sign and the two digit runs:
      whether a point is written does not change it. */
  lemma PointDoesNotCount(n: Numeral, m: Numeral)
    requires ValidNumeral(n) && ValidNumeral(m)
    requires n.negative == m.negative && n.whole == m.whole && n.fraction == m.fraction
    ensures Matches(Spell(n)) && Matches(Spell(m))
    ensures Parse(Spell(m)) == Parse(Spell(n))
  {
    ParseNumeral(n);
    ParseNumeral(m);
    if n.whole != "" || n.fraction != "" {
      assert Value(m) == Value(n);
    }
  }

  /** Typing a point after a number without one does not change its value. */
  lemma TrailingPointKeepsValue(n: Numeral)
    requires ValidNumeral(n) && !n.point
    ensures Matches(Spell(n))
    ensures Matches(Spell(n) + ".")
    ensures Parse(Spell(n) + ".") == Parse(Spell(n))
  {
    var m := n.(point := true);
    assert Spell(m) == Spell(n) + ".";
    PointDoesNotCount(n, m);
  }

  /** One more zero digit and one more place of shift cancel out. */
  lemma ShiftedTimesTen(x: nat, e: nat)
    ensures Shifted(x * 10, e + 1) == Shifted(x, e)
  {
    var p := Pow10(e) as real;
    assert Pow10(e + 1) as real == p * 10.0;
    assert (x * 10) as real == x as real * 10.0;
    assert (x as real * 10.0) / (p * 10.0) == x as real / p;
  }

  /** The numeral after typing one more zero digit at its end. */
  function AppendZero(n: Numeral): (m: Numeral)
    requires ValidNumeral(n) && n.point
    ensures ValidNumeral(m)
    ensures Spell(m) == Spell(n) + "0"
  {
    var m := n.(fraction := n.fraction + "0");
    NatOfAppend(n.fraction, "0");
    assert Unsigned(m) == Unsigned(n) + "0";
    m
  }

  lemma AppendZeroValue(n: Numeral)
    requires ValidNumeral(n) && n.point
    ensures Value(AppendZero(n)) == Value(n)
  {
    var m := AppendZero(n);
    NatOfAppend(n.fraction, "0");
    assert NatOf(m.fraction) == NatOf(n.fraction) * 10;
    ShiftedTimesTen(NatOf(n.fraction), |n.fraction|);
  }

  /** Typing a zero after the point does not change the value of a text
      that already has a digit. */
  lemma TrailingZeroKeepsValue(n: Numeral)
    requires ValidNumeral(n) && n.point
    requires n.whole != "" || n.fraction != ""
    ensures Matches(Spell(n))
    ensures Matches(Spell(n) + "0")
    ensures Parse(Spell(n) + "0") == Parse(Spell(n))
  {
    var m := AppendZero(n);
    ParseNumeral(n);
    ParseNumeral(m);
    AppendZeroValue(n);
  }

  /** Texts without a digit, which `parseFloat` cannot read. */
  lemma NoNumberExamples()
    ensures Parse("") == None && Parse("-") == None && Parse(".") == None && Parse("-.") == None
  {
    assert !HasDigit("-") && !HasDigit(".") && !HasDigit("-.");
  }

  /** Texts the field can hold, read as `parseFloat` reads them: a trailing
      point and a missing whole part are both fine. */
  lemma TrailingPointExample()
    ensures Parse("3.") == Some(3.0)
  {
    var n := Numeral(false, "3", true, "");
    assert Spell(n) == "3.";
    LexSpell(n);
    assert NatOf("3") == 3;
  }

  lemma LeadingPointExample()
    ensures Parse("-.5") == Some(-0.5)
  {
    var n := Numeral(true, "", true, "5");
    assert Spell(n) == "-.5";
    LexSpell(n);
    assert NatOf("5") == 5;
    assert Shifted(5, 1) == 0.5;
  }

  lemma ZeroExample()
    ensures Parse("0") == Some(0.0)
  {
    var n := Numeral(false, "0", false, "");
    assert Spell(n) == "0";
    LexSpell(n);
    assert "0"[..0] == "";
  }

  lemma WholeExample()
    ensures Parse("100") == Some(100.0)
  {
    var n := Numeral(false, "100", false, "");
    assert Spell(n) == "100";
    LexSpell(n);
    assert "100"[..2] == "10" && "10"[..1] == "1";
    assert NatOf("100") == 100;
  }

  lemma NegativeExample()
    ensures Parse("-40") == Some(-40.0)
  {
    var n := Numeral(true, "40", false, "");
    assert Spell(n) == "-40";
    LexSpell(n);
    assert "40"[..1] == "4";
    assert NatOf("40") == 40;
  }
}
