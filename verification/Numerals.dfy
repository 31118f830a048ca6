/** `strconv` and `%o`/`%d` formatting: numerals in base 8 and base 10. */
module Numerals {
  import opened GoBytes

  predicate IsDigit(c: byte, base: nat) {
    ZERO <= c < ZERO + base
  }

  lemma Shorter(n: nat, base: nat)
    requires 2 <= base <= n
    ensures 0 < n / base < n && 0 <= n % base < base
  {
  }

  /** The numeral of n without leading zeros, as `strconv.Itoa` and `%v` print it. */
  function Numeral(n: nat, base: nat): (s: Str)
    requires 2 <= base <= 10
    ensures |s| > 0
    ensures forall c <- s :: IsDigit(c, base)
    decreases n
  {
    if n < base then [ZERO + n]
    else
      Shorter(n, base);
      Numeral(n / base, base) + [ZERO + n % base]
  }

  /** The value of a string of digits; no value for anything else. */
  function DigitsValue(s: Str, base: nat): (v: Option<nat>)
    requires 2 <= base <= 10
  {
    if s == [] then None
    else
      var last := s[|s| - 1];
      if !IsDigit(last, base) then None
      else if |s| == 1 then Some(last - ZERO)
      else match DigitsValue(s[..|s| - 1], base) {
        case None => None
        case Some(high) => Some(high * base + (last - ZERO))
      }
  }

  /** `strconv.ParseInt(s, base, 0)`: an optional sign, then digits, within 64 bits. */
  function ParseInt(s: Str, base: nat): (v: Option<int>)
    requires 2 <= base <= 10
    ensures v.Some? ==> -U63 <= v.value < U63
  {
    if s == [] then None
    else
      var signed := s[0] == PLUS || s[0] == MINUS;
      match DigitsValue(if signed then s[1..] else s, base) {
        case None => None
        case Some(magnitude) =>
          var m: int := magnitude;
          var n := if s[0] == MINUS then -m else m;
          if -U63 <= n < U63 then Some(n) else None
      }
  }

  /** `strconv.Atoi` and `strconv.Itoa`. */
  function Atoi(s: Str): Option<int> { ParseInt(s, 10) }

  function Itoa(n: nat): (s: Str)
    ensures |s| > 0
    ensures forall c <- s :: IsDigit(c, 10)
  {
    Numeral(n, 10)
  }

  /** `%04o`: octal, zero-padded on the left to at least four digits. */
  function Octal04(n: nat): (s: Str)
    ensures |s| >= 4
    ensures forall c <- s :: IsDigit(c, 8)
  {
    ZeroPadded(Numeral(n, 8), 4)
  }

  function ZeroPadded(s: Str, width: nat): (r: Str)
    requires forall c <- s :: IsDigit(c, 8)
    ensures |r| >= width
    ensures forall c <- r :: IsDigit(c, 8)
    decreases width - |s|
  {
    if |s| >= width then s else ZeroPadded([ZERO] + s, width)
  }

  lemma {:induction false} NumeralValue(n: nat, base: nat)
    requires 2 <= base <= 10
    ensures DigitsValue(Numeral(n, base), base) == Some(n)
  {
    if n >= base {
      NumeralValue(n / base, base);
      hide DigitsValue;
      LastDigit(Numeral(n / base, base), n % base, base);
      Recomposed(n, base);
    } else {
      OneDigit(n, base);
    }
  }

  lemma OneDigit(d: nat, base: nat)
    requires d < base && 2 <= base <= 10
    ensures DigitsValue([ZERO + d], base) == Some(d)
  {
  }

  lemma LastDigit(s: Str, d: nat, base: nat)
    requires d < base && 2 <= base <= 10 && DigitsValue(s, base).Some?
    ensures DigitsValue(s + [ZERO + d], base) == Some(DigitsValue(s, base).value * base + d)
  {
    hide DigitsValue;
    HasDigits(s, base);
    var all := s + [ZERO + d];
    assert all[..|all| - 1] == s && all[|all| - 1] == ZERO + d;
    DigitsUnfold(all, base);
  }

  lemma HasDigits(s: Str, base: nat)
    requires 2 <= base <= 10 && DigitsValue(s, base).Some?
    ensures s != []
  {
  }

  lemma DigitsUnfold(s: Str, base: nat)
    requires 2 <= base <= 10 && |s| >= 2 && IsDigit(s[|s| - 1], base) && DigitsValue(s[..|s| - 1], base).Some?
    ensures DigitsValue(s, base) == Some(DigitsValue(s[..|s| - 1], base).value * base + (s[|s| - 1] - ZERO))
  {
  }

  lemma Recomposed(n: nat, base: nat)
    requires base > 0
    ensures n / base * base + n % base == n
  {
  }

  lemma {:induction false} LeadingZeroValue(s: Str)
    requires s != []
    ensures DigitsValue([ZERO] + s, 8) == DigitsValue(s, 8)
  {
    if |s| > 1 {
      LeadingZeroValue(s[..|s| - 1]);
      assert ([ZERO] + s)[..|s|] == [ZERO] + s[..|s| - 1];
    } else {
      assert ([ZERO] + s)[..1] == [ZERO];
    }
  }

  lemma {:induction false} ZeroPaddedValue(s: Str, width: nat)
    requires s != []
    requires forall c <- s :: IsDigit(c, 8)
    ensures DigitsValue(ZeroPadded(s, width), 8) == DigitsValue(s, 8)
    decreases width - |s|
  {
    if |s| < width {
      LeadingZeroValue(s);
      ZeroPaddedValue([ZERO] + s, width);
    }
  }

  /** A printed number reads back as itself, in decimal and in padded octal. */
  lemma AtoiItoa(n: nat)
    requires n < U63
    ensures Atoi(Itoa(n)) == Some(n)
  {
    NumeralValue(n, 10);
    assert IsDigit(Itoa(n)[0], 10);
  }

  lemma ParseOctal04(n: nat)
    requires n < U63
    ensures ParseInt(Octal04(n), 8) == Some(n)
  {
    NumeralValue(n, 8);
    ZeroPaddedValue(Numeral(n, 8), 4);
    assert IsDigit(Octal04(n)[0], 8);
  }

  /** A sign counts, what is no numeral is refused, and so is a number beyond 64 bits. */
  lemma SignedNumerals(n: nat, base: nat)
    requires 2 <= base <= 10
    ensures ParseInt([PLUS] + Numeral(n, base), base) == if n < U63 then Some(n) else None
    ensures var m: int := n; ParseInt([MINUS] + Numeral(n, base), base) == if n <= U63 then Some(-m) else None
    ensures ParseInt([], base) == None && ParseInt([PLUS], base) == None && ParseInt([MINUS], base) == None
  {
    NumeralValue(n, base);
    var s := Numeral(n, base);
    assert ([PLUS] + s)[1..] == s && ([MINUS] + s)[1..] == s;
    assert [PLUS][1..] == [] && [MINUS][1..] == [];
  }

  lemma {:induction false} NotANumeral(s: Str, base: nat, i: nat)
    requires 2 <= base <= 10 && i < |s| && !IsDigit(s[i], base)
    ensures DigitsValue(s, base) == None
  {
    if i < |s| - 1 {
      NotANumeral(s[..|s| - 1], base, i);
    }
  }

  /** `%04o` is the octal numeral, with zeros in front up to four digits and no more. */
  lemma Octal04Pads(n: nat)
    ensures var s, r := Numeral(n, 8), Octal04(n);
            if |s| >= 4 then r == s else |r| == 4 && r[4 - |s|..] == s && forall i :: 0 <= i < 4 - |s| ==> r[i] == ZERO
  {
    PadsLeft(Numeral(n, 8), 4);
  }

  lemma {:induction false} PadsLeft(s: Str, width: nat)
    requires forall c <- s :: IsDigit(c, 8)
    ensures var r := ZeroPadded(s, width);
            if |s| >= width then r == s
            else |r| == width && r[width - |s|..] == s && forall i :: 0 <= i < width - |s| ==> r[i] == ZERO
    decreases width - |s|
  {
    if |s| < width {
      PadsLeft([ZERO] + s, width);
      var r := ZeroPadded([ZERO] + s, width);
      assert r[width - |s| - 1..] == [ZERO] + s;
      assert r[width - |s|..] == r[width - |s| - 1..][1..];
      assert r[width - |s| - 1] == r[width - |s| - 1..][0];
    }
  }
}
