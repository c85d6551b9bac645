/** Unsigned decimal numbers as text: what the standard library prints, and what `str::parse` reads. */
module Decimal {
  import opened Outcomes

  function DecimalText(n: nat): (s: string)
    ensures |s| >= 1
  {
    if n < 10 then [DigitChar(n)] else DecimalText(n / 10) + [DigitChar(n % 10)]
  }

  function DigitChar(d: nat): char
    requires d < 10
  {
    ('0' as int + d) as char
  }

  predicate IsDecimal(c: char) {
    '0' <= c <= '9'
  }

  predicate AllDecimal(s: string) {
    forall i | 0 <= i < |s| :: IsDecimal(s[i])
  }

  function DecimalValue(s: string): nat
    requires AllDecimal(s)
  {
    if s == "" then 0
    else
      assert IsDecimal(s[|s| - 1]);
      10 * DecimalValue(s[..|s| - 1]) + (s[|s| - 1] as int - '0' as int)
  }

  /** One leading `+` is allowed; an empty or foreign text and a number that does not fit are not. */
  function ParseUnsigned(s: string, limit: nat): (n: Option<nat>)
    ensures n.Some? ==> n.value < limit
  {
    var digits := if |s| > 1 && s[0] == '+' then s[1..] else s;
    if digits == "" || !AllDecimal(digits) then None
    else if DecimalValue(digits) >= limit then None
    else Some(DecimalValue(digits))
  }

  lemma {:induction false} DecimalRoundTrip(n: nat)
    ensures AllDecimal(DecimalText(n))
    ensures DecimalValue(DecimalText(n)) == n
  {
    var s := DecimalText(n);
    if n >= 10 {
      DecimalRoundTrip(n / 10);
      assert s[..|s| - 1] == DecimalText(n / 10);
    } else {
      assert s[..0] == "";
    }
  }

  lemma ParsePrinted(n: nat, limit: nat)
    requires n < limit
    ensures ParseUnsigned(DecimalText(n), limit) == Some(n)
  {
    DecimalRoundTrip(n);
    assert IsDecimal(DecimalText(n)[0]);
  }

  /** `v` is the number the digits spell: `vs` are the numbers of the first digits alone, each ten times the last. */
  ghost predicate IsNumeral(digits: string, v: nat) {
    && digits != ""
    && exists vs: seq<nat> ::
         && |vs| == |digits| + 1 && vs[0] == 0 && vs[|digits|] == v
         && forall i | 0 <= i < |digits| :: '0' <= digits[i] <= '9' && vs[i + 1] == 10 * vs[i] + (digits[i] as int - 48)
  }

  /** With or without a plus sign. */
  ghost predicate IsNumber(text: string, v: nat) {
    IsNumeral(text, v) || exists digits :: text == "+" + digits && IsNumeral(digits, v)
  }

  lemma {:induction false} NumeralValue(digits: string, vs: seq<nat>)
    requires |vs| == |digits| + 1 && vs[0] == 0
    requires forall i | 0 <= i < |digits| :: IsDecimal(digits[i]) && vs[i + 1] == 10 * vs[i] + (digits[i] as int - 48)
    ensures vs[|digits|] == DecimalValue(digits)
    decreases |digits|
  {
    var k := |digits| - 1;
    if k >= 0 {
      assert vs[k + 1] == 10 * vs[k] + (digits[k] as int - 48);
      NumeralValue(digits[..k], vs[..k + 1]);
    }
  }

  lemma {:induction false} NumeralValues(digits: string) returns (vs: seq<nat>)
    requires AllDecimal(digits)
    ensures |vs| == |digits| + 1 && vs[0] == 0
    ensures forall i | 0 <= i < |digits| :: vs[i + 1] == 10 * vs[i] + (digits[i] as int - 48)
    decreases |digits|
  {
    if digits == "" {
      vs := [0];
    } else {
      var k := |digits| - 1;
      var before := NumeralValues(digits[..k]);
      assert IsDecimal(digits[k]);
      vs := before + [10 * before[k] + (digits[k] as int - 48)];
    }
  }

  lemma NumeralIs(digits: string, v: nat)
    ensures IsNumeral(digits, v)
       <==> digits != "" && AllDecimal(digits) && v == DecimalValue(digits)
  {
    if IsNumeral(digits, v) {
      var vs: seq<nat> :|
        && |vs| == |digits| + 1 && vs[0] == 0 && vs[|digits|] == v
        && forall i | 0 <= i < |digits| :: '0' <= digits[i] <= '9' && vs[i + 1] == 10 * vs[i] + (digits[i] as int - 48);
      NumeralValue(digits, vs);
    } else if digits != "" && AllDecimal(digits) && v == DecimalValue(digits) {
      var vs := NumeralValues(digits);
      NumeralValue(digits, vs);
      assert forall i | 0 <= i < |digits| :: IsDecimal(digits[i]);
    }
  }

  /** A text reads as a number if and only if it is that number in digits, and the number is below the limit. */
  lemma UnsignedIff(s: string, limit: nat, v: nat)
    ensures ParseUnsigned(s, limit) == Some(v)
       <==> v < limit && IsNumber(s, v)
  {
    hide IsNumeral;
    var rest := if |s| > 1 then s[1..] else "";
    NumeralIs(s, v);
    NumeralIs(rest, v);
    if |s| > 1 && s[0] == '+' {
      assert s == "+" + rest && !IsDecimal(s[0]);
      assert ParseUnsigned(s, limit) == Some(v) <==> v < limit && IsNumeral(rest, v);
    } else {
      assert ParseUnsigned(s, limit) == Some(v) <==> v < limit && IsNumeral(s, v);
    }
    forall digits | s == "+" + digits && IsNumeral(digits, v)
      ensures digits == rest && |s| > 1
    {
      NumeralIs(digits, v);
    }
  }
}
