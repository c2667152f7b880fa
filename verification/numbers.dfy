/**
 * Decimal numerals: Python's `str(int)` and `int(str)` restricted to ASCII
 * digits, and the permissive parser `pint` built on them.
 */
module Numbers {
  import opened Options
  import opened Text

  predicate IsDigit(c: char) {
    '0' <= c <= '9'
  }

  /** A non-empty run of ASCII digits. */
  predicate IsDigits(s: string) {
    |s| > 0 && forall k :: 0 <= k < |s| ==> IsDigit(s[k])
  }

  /** What Python's `int()` accepts once white space is stripped: digits with
      an optional leading sign. */
  predicate IsNumeral(s: string) {
    || IsDigits(s)
    || (|s| > 1 && (s[0] == '+' || s[0] == '-') && IsDigits(s[1..]))
  }

  /** The value of a digit string, most significant digit first. */
  function DigitsValue(s: string): nat
    requires forall k :: 0 <= k < |s| ==> IsDigit(s[k])
  {
    if s == [] then 0
    else
      var last := s[|s| - 1];
      assert IsDigit(last);
      DigitsValue(s[..|s| - 1]) * 10 + (last as int - '0' as int)
  }

  function DigitChar(d: nat): (c: char)
    requires d < 10
    ensures IsDigit(c) && c as int - '0' as int == d
  {
    ('0' as int + d) as char
  }

  /** Python's `str(n)` for a natural number. */
  function NatToString(n: nat): string {
    if n < 10 then [DigitChar(n)] else NatToString(n / 10) + [DigitChar(n % 10)]
  }

  /** `str(n)` is the shortest decimal numeral of `n`. */
  lemma {:induction false} NatToStringIsNumeral(n: nat)
    ensures IsDigits(NatToString(n))
    ensures DigitsValue(NatToString(n)) == n
    ensures NatToString(n)[0] == '0' ==> n == 0 && |NatToString(n)| == 1
  {
    if n >= 10 {
      NatToStringIsNumeral(n / 10);
      var init := NatToString(n / 10);
      var r := NatToString(n);
      assert r[..|r| - 1] == init;
      LeadingDigitPositive(init);
    }
  }

  /** Python's `str(x)` for an integer. */
  function IntToString(x: int): (r: string)
    ensures IsNumeral(r)
  {
    NatToStringIsNumeral(if x < 0 then -x else x);
    if x < 0 then "-" + NatToString(-x) else NatToString(x)
  }

  /** Python's `int(s)` on a string with no surrounding white space:
      `None` stands for the `ValueError` it raises. */
  function ParseInt(s: string): (r: Option<int>)
    ensures r.Some? <==> IsNumeral(s)
  {
    if |s| > 1 && (s[0] == '+' || s[0] == '-') && IsDigits(s[1..]) then
      var magnitude: int := DigitsValue(s[1..]);
      Some(if s[0] == '-' then -magnitude else magnitude)
    else if IsDigits(s) then Some(DigitsValue(s))
    else None
  }

  /** `pint(n, default)`: the integer `n` spells once stripped, or `default`
      when it spells none. The source's `default=0` is `Some(0)` here, and
      `default=None` is `None`. */
  function Pint(n: string, default: Option<int>): (r: Option<int>)
    ensures IsNumeral(Strip(n)) ==> r.Some?
    ensures !IsNumeral(Strip(n)) ==> r == default
  {
    match ParseInt(Strip(n))
    case Some(v) => Some(v)
    case None => default
  }

  /** Parsing a printed integer gives it back. */
  lemma ParseIntOfIntToString(x: int)
    ensures ParseInt(IntToString(x)) == Some(x)
  {
    if x < 0 {
      var t := NatToString(-x);
      NatToStringIsNumeral(-x);
      var s := "-" + t;
      assert s[1..] == t;
      assert IntToString(x) == s;
    } else {
      var t := NatToString(x);
      NatToStringIsNumeral(x);
      assert IsDigit(t[0]);
      assert IntToString(x) == t;
    }
  }

  lemma {:induction false} LeadingDigitPositive(s: string)
    requires IsDigits(s) && s[0] != '0'
    ensures DigitsValue(s) >= 1
    decreases |s|
  {
    if |s| > 1 {
      LeadingDigitPositive(s[..|s| - 1]);
    }
  }

  /** A digit string without a leading zero is the printed form of its value. */
  lemma {:induction false} NatToStringOfDigits(s: string)
    requires IsDigits(s) && (s[0] == '0' ==> |s| == 1)
    ensures NatToString(DigitsValue(s)) == s
    decreases |s|
  {
    var n := DigitsValue(s);
    if |s| == 1 {
      assert s[..0] == [];
      assert IsDigit(s[0]);
      assert DigitsValue(s[..0]) == 0;
      assert n == s[0] as int - '0' as int;
      assert DigitChar(n) == s[0];
    } else {
      var init := s[..|s| - 1];
      LeadingDigitPositive(init);
      NatToStringOfDigits(init);
      assert n / 10 == DigitsValue(init);
      assert s == init + [s[|s| - 1]];
    }
  }

  /** The numerals Python prints: no plus sign, no leading zero, no `-0`. */
  predicate IsCanonical(s: string) {
    || (IsDigits(s) && (s[0] == '0' ==> |s| == 1))
    || (|s| > 1 && s[0] == '-' && IsDigits(s[1..]) && s[1] != '0')
  }

  /** Printing a parsed canonical numeral gives back the numeral. */
  lemma IntToStringOfParseInt(s: string)
    requires IsCanonical(s)
    ensures ParseInt(s).Some? && IntToString(ParseInt(s).value) == s
  {
    if IsDigits(s) && (s[0] == '0' ==> |s| == 1) {
      NatToStringOfDigits(s);
    } else {
      var t := s[1..];
      LeadingDigitPositive(t);
      NatToStringOfDigits(t);
      assert s == "-" + t;
    }
  }

  /** `pint` reads back any printed integer, whatever white space surrounds it,
      and never falls back to the default for it. */
  lemma PintRoundTrip(p: string, x: int, q: string, default: Option<int>)
    requires AllSpace(p) && AllSpace(q)
    ensures Pint(p + IntToString(x) + q, default) == Some(x)
  {
    var s := IntToString(x);
    assert Edgeless(s) by {
      assert IsDigit(s[|s| - 1]);
    }
    StripPadded(p, s, q);
    ParseIntOfIntToString(x);
  }

  /** A leading zero does not change a digit string's value. */
  lemma {:induction false} DigitsValueLeadingZero(s: string)
    requires forall k :: 0 <= k < |s| ==> IsDigit(s[k])
    ensures DigitsValue("0" + s) == DigitsValue(s)
    decreases |s|
  {
    var z := "0" + s;
    if s == [] {
      assert z[..0] == [];
    } else {
      var init := s[..|s| - 1];
      DigitsValueLeadingZero(init);
      assert z[..|z| - 1] == "0" + init;
      assert z[|z| - 1] == s[|s| - 1];
    }
  }

  /** `int("0" + s)` is `int(s)` for a digit string `s`. */
  lemma ParseIntLeadingZero(s: string)
    requires IsDigits(s)
    ensures ParseInt("0" + s) == ParseInt(s)
  {
    DigitsValueLeadingZero(s);
    assert IsDigits("0" + s);
  }

  /** `int("+" + s)` is `int(s)` for a digit string `s`. */
  lemma ParseIntPlus(s: string)
    requires IsDigits(s)
    ensures ParseInt("+" + s) == ParseInt(s)
  {
    assert ("+" + s)[1..] == s;
  }

  /** `int("-0" + s)` is `int("-" + s)` for a digit string `s`. */
  lemma ParseIntMinusZero(s: string)
    requires IsDigits(s)
    ensures ParseInt("-0" + s) == ParseInt("-" + s)
  {
    DigitsValueLeadingZero(s);
    assert ("-0" + s)[1..] == "0" + s;
    assert ("-" + s)[1..] == s;
  }

  predicate AllZeros(z: string) {
    forall k :: 0 <= k < |z| ==> z[k] == '0'
  }

  /** Any run of leading zeros leaves a digit string's value alone. */
  lemma {:induction false} DigitsValueZeros(z: string, t: string)
    requires AllZeros(z) && forall k :: 0 <= k < |t| ==> IsDigit(t[k])
    ensures forall k :: 0 <= k < |z + t| ==> IsDigit((z + t)[k])
    ensures DigitsValue(z + t) == DigitsValue(t)
    decreases |z|
  {
    if z == [] {
      assert z + t == t;
    } else {
      var u := z[1..] + t;
      DigitsValueZeros(z[1..], t);
      assert z + t == "0" + u;
      DigitsValueLeadingZero(u);
    }
  }

  /** An optional sign before a digit string gives its value, negated for
      `-`. */
  lemma ParseIntSigned(sign: string, d: string)
    requires IsDigits(d)
    requires sign == "" || sign == "+" || sign == "-"
    ensures ParseInt(sign + d) == Some(if sign == "-" then -(DigitsValue(d) as int) else DigitsValue(d) as int)
  {
    if sign == "" {
      assert sign + d == d;
    } else {
      assert (sign + d)[1..] == d;
    }
  }

  /** `pint` reads a numeral with an optional sign and any number of leading
      zeros, surrounded by white space, as its value: `" 007 "` is 7, `"+5"`
      is 5 and `"-05"` is -5. */
  lemma PintOfSignedNumeral(p: string, sign: string, z: string, x: nat, q: string, default: Option<int>)
    requires AllSpace(p) && AllSpace(q) && AllZeros(z)
    requires sign == "" || sign == "+" || sign == "-"
    ensures Pint(p + sign + z + NatToString(x) + q, default) == Some(if sign == "-" then -(x as int) else x as int)
  {
    var t := NatToString(x);
    NatToStringIsNumeral(x);
    DigitsValueZeros(z, t);
    var d := z + t;
    var m := sign + d;
    SignedNumeralEdgeless(sign, d);
    ParseIntSigned(sign, d);
    StripPadded(p, m, q);
    assert p + sign + z + t + q == p + m + q by {
      Regroup(p, sign, z, t, q);
    }
  }

  lemma PintExamples()
    ensures Pint(" 007 ", Some(0)) == Some(7)
    ensures Pint("+5", None) == Some(5)
    ensures Pint("-05", None) == Some(-5)
  {
    assert NatToString(7) == "7" && NatToString(5) == "5";
    assert AllSpace(" ") && AllSpace("") && AllZeros("00") && AllZeros("0") && AllZeros("");
    PintOfSignedNumeral(" ", "", "00", 7, " ", Some(0));
    assert " " + "" + "00" + "7" + " " == " 007 ";
    PintOfSignedNumeral("", "+", "", 5, "", None);
    assert "" + "+" + "" + "5" + "" == "+5";
    PintOfSignedNumeral("", "-", "0", 5, "", None);
    assert "" + "-" + "0" + "5" + "" == "-05";
  }

  lemma SignedNumeralEdgeless(sign: string, d: string)
    requires IsDigits(d)
    requires sign == "" || sign == "+" || sign == "-"
    ensures Edgeless(sign + d)
  {
    var m := sign + d;
    assert m[|m| - 1] == d[|d| - 1];
    assert m[0] == '+' || m[0] == '-' || IsDigit(m[0]);
  }

  lemma Regroup<T>(a: seq<T>, b: seq<T>, c: seq<T>, d: seq<T>, e: seq<T>)
    ensures a + b + c + d + e == a + (b + (c + d)) + e
  {
  }
}
