/**
 * The radix decoder `convertToBase10`, which is `Long.parseLong(value, base)`,
 * and `Integer.parseInt(key)`, used for the share index. Both follow the same
 * contract: an optional `+` or `-`, then one or more digits of the radix,
 * and a value that fits the target integer type.
 */
module Radix {
  import opened Results

  const MIN_RADIX: int := 2
  const MAX_RADIX: int := 36

  const MIN_INT: int := -0x8000_0000
  const MAX_INT: int := 0x7FFF_FFFF
  const MIN_LONG: int := -0x8000_0000_0000_0000
  const MAX_LONG: int := 0x7FFF_FFFF_FFFF_FFFF

  /** Java `int` and `long` values. */
  type Int32 = i: int | MIN_INT <= i <= MAX_INT
  type Int64 = i: int | MIN_LONG <= i <= MAX_LONG

  /** Why a string is not a number (Java raises NumberFormatException for all of them). */
  datatype ParseError =
    | BadRadix     // radix outside 2..36
    | Empty        // the empty string
    | LoneSign     // "+" or "-" with no digit after it
    | NotADigit    // a character that is not a digit of the radix
    | OutOfRange   // the value does not fit the target type

  /** The value of `c` as a digit of `radix` (Character.digit on ASCII), or None. */
  function Digit(c: char, radix: int): (d: Option<nat>)
    ensures d.Some? ==> MIN_RADIX <= radix <= MAX_RADIX && d.value < radix
  {
    var v :=
      if '0' <= c <= '9' then c as int - '0' as int
      else if 'a' <= c <= 'z' then c as int - 'a' as int + 10
      else if 'A' <= c <= 'Z' then c as int - 'A' as int + 10
      else MAX_RADIX;
    if MIN_RADIX <= radix <= MAX_RADIX && v < radix then Some(v) else None
  }

  predicate AllDigits(ds: string, radix: int) {
    forall i :: 0 <= i < |ds| ==> Digit(ds[i], radix).Some?
  }

  function DigitOf(c: char, radix: int): nat
    requires Digit(c, radix).Some?
  {
    Digit(c, radix).value
  }

  /** The digit character for `d` (Character.forDigit: lower-case letters). */
  function DigitChar(d: nat): char
    requires d < MAX_RADIX
  {
    if d < 10 then ('0' as int + d) as char else ('a' as int + d - 10) as char
  }

  function Pow(b: nat, e: nat): nat {
    if e == 0 then 1 else b * Pow(b, e - 1)
  }

  /** Horner's rule, left to right: value(ds + [d]) == value(ds) * radix + d. */
  function Horner(ds: string, radix: nat): nat
    requires AllDigits(ds, radix)
  {
    if |ds| == 0 then 0
    else Horner(ds[..|ds| - 1], radix) * radix + DigitOf(ds[|ds| - 1], radix)
  }

  /** a·b + c on naturals: one step of the positional reading. */
  function MulAdd(a: nat, b: nat, c: nat): nat {
    a * b + c
  }

  /** Reference definition: the sum of digit * radix^position, position counted from the right. */
  function Positional(ds: string, radix: nat): nat
    requires AllDigits(ds, radix)
  {
    if |ds| == 0 then 0
    else MulAdd(DigitOf(ds[0], radix), Pow(radix, |ds[1..]|), Positional(ds[1..], radix))
  }

  /**
   * The shared core of Long.parseLong(s, radix) and Integer.parseInt(s, radix)
   * with the range [lo, hi] of the target type.
   */
  function ParseSigned(s: string, radix: int, lo: int, hi: int): (r: Result<int, ParseError>)
    ensures r.Ok? ==> lo <= r.value <= hi
  {
    if radix < MIN_RADIX || radix > MAX_RADIX then Err(BadRadix)
    else if |s| == 0 then Err(Empty)
    else
      var ds := if s[0] == '-' || s[0] == '+' then s[1..] else s;
      if |ds| == 0 then Err(LoneSign)
      else if !AllDigits(ds, radix) then Err(NotADigit)
      else
        var m: int := Horner(ds, radix);
        var v := if s[0] == '-' then -m else m;
        if lo <= v <= hi then Ok(v) else Err(OutOfRange)
  }

  /** convertToBase10(value, base), that is Long.parseLong(value, base). */
  function ConvertToBase10(value: string, base: int): (r: Result<int, ParseError>)
    ensures r.Ok? ==> MIN_LONG <= r.value <= MAX_LONG
  {
    ParseSigned(value, base, MIN_LONG, MAX_LONG)
  }

  /** Integer.parseInt(s): radix 10, int range. */
  function ParseInt(s: string): (r: Result<int, ParseError>)
    ensures r.Ok? ==> MIN_INT <= r.value <= MAX_INT
  {
    ParseSigned(s, 10, MIN_INT, MAX_INT)
  }

  // ---------------------------------------------------------------------
  // Reference grammar and value of a numeral, independent of the parser.

  /** `s` is a sign-optional numeral of `radix`: ("" | "+" | "-") digit+. */
  predicate IsNumeral(s: string, radix: int) {
    MIN_RADIX <= radix <= MAX_RADIX &&
    |s| > 0 &&
    if s[0] == '+' || s[0] == '-' then |s| > 1 && AllDigits(s[1..], radix)
    else AllDigits(s, radix)
  }

  /** The value a numeral denotes: its positional value, negated after a leading '-'. */
  function NumeralValue(s: string, radix: int): int
    requires IsNumeral(s, radix)
  {
    if s[0] == '-' then -(Positional(s[1..], radix) as int)
    else if s[0] == '+' then Positional(s[1..], radix)
    else Positional(s, radix)
  }

  /** The digits of v >= 0 in the radix: no leading zeros, lower-case letters. */
  function ToDigits(v: nat, radix: nat): (ds: string)
    requires MIN_RADIX <= radix <= MAX_RADIX
    decreases v
  {
    if v < radix then [DigitChar(v)]
    else
      DivModBounds(v, radix);
      ToDigits(v / radix, radix) + [DigitChar(v % radix)]
  }

  lemma DivModBounds(v: nat, radix: nat)
    requires MIN_RADIX <= radix <= MAX_RADIX && v >= radix
    ensures v / radix < v && v % radix < radix
  {
  }

  /** Long.toString(v, radix): minus sign for negatives, then the digits of |v|. */
  function ToString(v: int, radix: nat): string
    requires MIN_RADIX <= radix <= MAX_RADIX
  {
    if v < 0 then "-" + ToDigits(-v, radix) else ToDigits(v, radix)
  }

  // ---------------------------------------------------------------------
  // Lemmas

  lemma AllDigitsSplit(a: string, b: string, radix: int)
    ensures AllDigits(a + b, radix) <==> AllDigits(a, radix) && AllDigits(b, radix)
  {
    if AllDigits(a + b, radix) {
      forall i | 0 <= i < |a| ensures Digit(a[i], radix).Some? {
        assert (a + b)[i] == a[i];
      }
      forall i | 0 <= i < |b| ensures Digit(b[i], radix).Some? {
        assert (a + b)[|a| + i] == b[i];
      }
    }
    if AllDigits(a, radix) && AllDigits(b, radix) {
      forall i | 0 <= i < |a + b| ensures Digit((a + b)[i], radix).Some? {
        if i < |a| { assert (a + b)[i] == a[i]; } else { assert (a + b)[i] == b[i - |a|]; }
      }
    }
  }

  /** Horner's left fold over a concatenation. */
  lemma {:induction false} HornerConcat(a: string, b: string, radix: nat)
    requires AllDigits(a, radix) && AllDigits(b, radix)
    ensures AllDigits(a + b, radix)
    ensures Horner(a + b, radix) == Horner(a, radix) * Pow(radix, |b|) + Horner(b, radix)
    decreases |b|
  {
    AllDigitsSplit(a, b, radix);
    if |b| == 0 {
      assert a + b == a;
    } else {
      var b' := b[..|b| - 1];
      var d := b[|b| - 1];
      AllDigitsSplit(b', [d], radix);
      assert b == b' + [d];
      HornerConcat(a, b', radix);
      assert (a + b)[..|a + b| - 1] == a + b';
      assert (a + b)[|a + b| - 1] == d;
      assert b[..|b| - 1] == b';
      var h, p, g, e := Horner(a, radix), Pow(radix, |b'|), Horner(b', radix), DigitOf(d, radix);
      assert Horner(a + b, radix) == Horner(a + b', radix) * radix + e;
      assert Horner(b, radix) == g * radix + e;
      HornerStep(h, p, g, e, radix);
    }
  }

  lemma HornerStep(h: nat, p: nat, g: nat, e: nat, r: nat)
    ensures (h * p + g) * r + e == h * (r * p) + (g * r + e)
  {
  }

  /** The parser's Horner fold computes the positional value Σ digit·radix^position. */
  lemma {:induction false} HornerIsPositional(ds: string, radix: nat)
    requires AllDigits(ds, radix)
    ensures Horner(ds, radix) == Positional(ds, radix)
    decreases |ds|
  {
    if |ds| > 0 {
      var d := [ds[0]];
      var rest := ds[1..];
      assert ds == d + rest;
      AllDigitsSplit(d, rest, radix);
      HornerConcat(d, rest, radix);
      HornerIsPositional(rest, radix);
      assert d[..0] == [];
      var h, e, p := Horner(d, radix), DigitOf(ds[0], radix), Pow(radix, |rest|);
      assert h == e;
      assert Horner(ds, radix) == h * p + Horner(rest, radix);
      assert Positional(ds, radix) == e * p + Positional(rest, radix);
    }
  }

  /**
   * The shared parser accepts exactly the numerals whose value lies in
   * [lo, hi], and then returns that value.
   */
  lemma ParseSignedMeaning(s: string, radix: int, lo: int, hi: int)
    ensures ParseSigned(s, radix, lo, hi).Ok? <==>
              IsNumeral(s, radix) && lo <= NumeralValue(s, radix) <= hi
    ensures ParseSigned(s, radix, lo, hi).Ok? ==> ParseSigned(s, radix, lo, hi).value == NumeralValue(s, radix)
  {
    if IsNumeral(s, radix) {
      if s[0] == '-' || s[0] == '+' {
        HornerIsPositional(s[1..], radix);
      } else {
        HornerIsPositional(s, radix);
      }
    }
  }

  /**
   * The decoder accepts exactly the numerals whose value fits a long, and
   * then returns that value.
   */
  lemma ConvertToBase10Meaning(s: string, radix: int)
    ensures ConvertToBase10(s, radix).Ok? <==>
              IsNumeral(s, radix) && MIN_LONG <= NumeralValue(s, radix) <= MAX_LONG
    ensures ConvertToBase10(s, radix).Ok? ==> ConvertToBase10(s, radix).value == NumeralValue(s, radix)
  {
    ParseSignedMeaning(s, radix, MIN_LONG, MAX_LONG);
  }

  /**
   * Integer.parseInt accepts exactly the decimal numerals whose value fits an
   * int, and then returns that value.
   */
  lemma ParseIntMeaning(s: string)
    ensures ParseInt(s).Ok? <==> IsNumeral(s, 10) && MIN_INT <= NumeralValue(s, 10) <= MAX_INT
    ensures ParseInt(s).Ok? ==> ParseInt(s).value == NumeralValue(s, 10)
  {
    ParseSignedMeaning(s, 10, MIN_INT, MAX_INT);
  }

  /** Some character of `s` is neither a digit of `radix` nor a leading sign. */
  predicate HasStrayChar(s: string, radix: int) {
    exists i :: 0 <= i < |s| && Digit(s[i], radix).None? && (i > 0 || (s[i] != '+' && s[i] != '-'))
  }

  /** The four ways the decoder fails, besides an unsupported radix. */
  lemma ConvertToBase10Failures(s: string, radix: int)
    ensures s == "" ==> ConvertToBase10(s, radix).Err?
    ensures s == "+" || s == "-" ==> ConvertToBase10(s, radix).Err?
    ensures HasStrayChar(s, radix) ==> ConvertToBase10(s, radix).Err?
    ensures IsNumeral(s, radix) && !(MIN_LONG <= NumeralValue(s, radix) <= MAX_LONG) ==>
              ConvertToBase10(s, radix).Err?
  {
    ConvertToBase10Meaning(s, radix);
    if HasStrayChar(s, radix) {
      var i :| 0 <= i < |s| && Digit(s[i], radix).None? && (i > 0 || (s[i] != '+' && s[i] != '-'));
      if (s[0] == '+' || s[0] == '-') && i > 0 {
        assert s[1..][i - 1] == s[i];
      }
    }
  }

  /** Long.toString produces a digit string of the radix denoting the value. */
  lemma {:induction false} ToDigitsCorrect(v: nat, radix: nat)
    requires MIN_RADIX <= radix <= MAX_RADIX
    ensures |ToDigits(v, radix)| > 0
    ensures AllDigits(ToDigits(v, radix), radix)
    ensures Horner(ToDigits(v, radix), radix) == v
    decreases v
  {
    var ds := ToDigits(v, radix);
    if v < radix {
      DigitCharValue(v, radix);
      assert ds[..0] == [];
    } else {
      var q, r := SplitLastDigit(v, radix);
      ToDigitsCorrect(q, radix);
      DigitCharValue(r, radix);
      AppendDigitValue(ToDigits(q, radix), DigitChar(r), radix, q, r, v);
    }
  }

  /** Long.toString's last step: v is q * radix + r, and its text is q's text followed by r's digit. */
  lemma SplitLastDigit(v: nat, radix: nat) returns (q: nat, r: nat)
    requires MIN_RADIX <= radix <= MAX_RADIX && v >= radix
    ensures q < v && r < radix && q * radix + r == v
    ensures ToDigits(v, radix) == ToDigits(q, radix) + [DigitChar(r)]
  {
    q, r := v / radix, v % radix;
  }

  /** Appending one digit: the Horner step. */
  lemma AppendDigit(ds: string, c: char, radix: nat)
    requires AllDigits(ds, radix) && Digit(c, radix).Some?
    ensures AllDigits(ds + [c], radix)
    ensures Horner(ds + [c], radix) == Horner(ds, radix) * radix + DigitOf(c, radix)
  {
    AllDigitsSplit(ds, [c], radix);
    assert (ds + [c])[..|ds|] == ds;
  }

  lemma AppendDigitValue(ds: string, c: char, radix: nat, q: nat, r: nat, v: nat)
    requires AllDigits(ds, radix) && Digit(c, radix) == Some(r)
    requires Horner(ds, radix) == q && q * radix + r == v
    ensures AllDigits(ds + [c], radix) && Horner(ds + [c], radix) == v
  {
    AppendDigit(ds, c, radix);
  }

  /** Character.forDigit and Character.digit are inverse for every digit of the radix. */
  lemma DigitCharValue(d: nat, radix: int)
    requires d < radix && MIN_RADIX <= radix <= MAX_RADIX
    ensures Digit(DigitChar(d), radix) == Some(d)
  {
  }

  /** Decoding the canonical text of a long gives the long back. */
  lemma ConvertToBase10RoundTrip(v: Int64, radix: nat)
    requires MIN_RADIX <= radix <= MAX_RADIX
    ensures ConvertToBase10(ToString(v, radix), radix) == Ok(v as int)
  {
    var m: nat := if v < 0 then -(v as int) else v as int;
    var ds := ToDigits(m, radix);
    ToDigitsCorrect(m, radix);
    var s := ToString(v, radix);
    assert Digit(ds[0], radix).Some?;
    if v < 0 {
      assert s[0] == '-' && s[1..] == ds;
    } else {
      assert s == ds;
    }
  }

  // Worked cases.

  lemma HexFF()
    ensures ConvertToBase10("ff", 16) == Ok(255)
  {
    assert "ff"[..1] == "f" && "f"[..0] == "";
    assert AllDigits("ff", 16) by { assert "ff"[0] == 'f' && "ff"[1] == 'f'; }
  }

  lemma MinusHexFF()
    ensures ConvertToBase10("-FF", 16) == Ok(-255)
  {
    assert "-FF"[1..] == "FF" && "FF"[..1] == "F" && "F"[..0] == "";
    assert AllDigits("FF", 16) by { assert "FF"[0] == 'F' && "FF"[1] == 'F'; }
  }

  lemma DecimalRejectsHexDigits()
    ensures ConvertToBase10("ff", 10) == Err(NotADigit)
  {
    assert Digit("ff"[0], 10).None?;
  }

  /** The long range is asymmetric: -2^63 decodes, +2^63 does not, in every radix. */
  lemma LongBounds(radix: nat)
    requires MIN_RADIX <= radix <= MAX_RADIX
    ensures ConvertToBase10("-" + ToDigits(MAX_LONG + 1, radix), radix) == Ok(MIN_LONG)
    ensures ConvertToBase10(ToDigits(MAX_LONG + 1, radix), radix) == Err(OutOfRange)
  {
    ConvertToBase10RoundTrip(MIN_LONG, radix);
    var ds := ToDigits(MAX_LONG + 1, radix);
    ToDigitsCorrect(MAX_LONG + 1, radix);
    assert Digit(ds[0], radix).Some?;
  }
}
