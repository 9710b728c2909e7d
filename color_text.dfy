/**
 * The text form of a colour parameter, "R,G,B" with each component a decimal
 * number from 0 to 255, as the interpreter scans it with "%hhu,%hhu,%hhu".
 * Only well-formed text is given a meaning: the scan leaves its components
 * unset on anything else.
 */
module ColorText {
  import opened Wrappers
  import opened RingDefs

  predicate IsDigit(c: char) { '0' <= c <= '9' }

  predicate AllDigits(s: string) { forall i :: 0 <= i < |s| ==> IsDigit(s[i]) }

  /** The value of a string of decimal digits, most significant first. */
  function DecimalValue(s: string): nat
    requires AllDigits(s)
  {
    if s == [] then 0 else DecimalValue(s[..|s| - 1]) * 10 + (s[|s| - 1] as int - '0' as int)
  }

  /** One well-formed component: a non-empty run of digits whose value fits a byte. */
  function ParseByte(s: string): (r: Option<uint8>)
    ensures r.Some? <==> |s| > 0 && AllDigits(s) && DecimalValue(s) <= 255
    ensures r.Some? ==> r.value == DecimalValue(s)
  {
    if |s| > 0 && AllDigits(s) && DecimalValue(s) <= 255 then Some(DecimalValue(s)) else None
  }

  /** The comma-separated fields of `s`; there is always at least one. */
  function Split(s: string): (r: seq<string>)
    ensures |r| >= 1
  {
    if s == [] then [""]
    else
      var rest := Split(s[1..]);
      if s[0] == ',' then [""] + rest else [[s[0]] + rest[0]] + rest[1..]
  }

  /** The three components of well-formed colour text, or None for anything else. */
  function ParseColor(s: string): (r: Option<(uint8, uint8, uint8)>)
    ensures r.Some? ==> |Split(s)| == 3
  {
    var parts := Split(s);
    if |parts| == 3 && ParseByte(parts[0]).Some? && ParseByte(parts[1]).Some? && ParseByte(parts[2]).Some?
    then Some((ParseByte(parts[0]).value, ParseByte(parts[1]).value, ParseByte(parts[2]).value))
    else None
  }

  /** An independent reference: the shortest decimal spelling of `n`. */
  function FormatDecimal(n: nat): string
  {
    if n < 10 then [('0' as int + n) as char]
    else FormatDecimal(n / 10) + [('0' as int + n % 10) as char]
  }

  /** The text a client sends for the colour (r, g, b). */
  function FormatColor(r: uint8, g: uint8, b: uint8): string
  {
    FormatDecimal(r) + "," + FormatDecimal(g) + "," + FormatDecimal(b)
  }

  /** The decimal spelling is all digits, non-empty, and reads back as `n`. */
  lemma {:induction false} FormatDecimalReadsBack(n: nat)
    ensures |FormatDecimal(n)| > 0 && AllDigits(FormatDecimal(n))
    ensures DecimalValue(FormatDecimal(n)) == n
  {
    var s := FormatDecimal(n);
    if n >= 10 {
      FormatDecimalReadsBack(n / 10);
      var d := ('0' as int + n % 10) as char;
      assert s == FormatDecimal(n / 10) + [d];
      assert s[..|s| - 1] == FormatDecimal(n / 10);
    }
  }

  /** Every byte's canonical decimal spelling is read back as that byte. */
  lemma ParseByteCanonical(n: uint8)
    ensures ParseByte(FormatDecimal(n)) == Some(n)
  {
    FormatDecimalReadsBack(n);
  }

  /**
   * Only plain digits are read: a component holding any other character,
   * such as white space or a sign, is rejected.
   */
  lemma ParseByteRejectsNonDigit(s: string, i: int)
    requires 0 <= i < |s| && !IsDigit(s[i])
    ensures ParseByte(s) == None
  {
  }

  /** A field without comma is split off whole. */
  lemma {:induction false} SplitField(a: string, t: string)
    requires ',' !in a
    ensures Split(a + "," + t) == [a] + Split(t)
  {
    if a == [] {
      assert a + "," + t == [','] + t;
      assert ([','] + t)[1..] == t;
    } else {
      assert (a + "," + t)[1..] == a[1..] + "," + t;
      assert a[1..] + "," + t == (a + "," + t)[1..];
      SplitField(a[1..], t);
      assert [a[0]] + a[1..] == a;
    }
  }

  /** Text without comma is one field. */
  lemma {:induction false} SplitWhole(a: string)
    requires ',' !in a
    ensures Split(a) == [a]
  {
    if a != [] {
      SplitWhole(a[1..]);
      assert [a[0]] + a[1..] == a;
    }
  }

  lemma DigitsHaveNoComma(s: string)
    requires AllDigits(s)
    ensures ',' !in s
  {
  }

  /**
   * Round trip: scanning the text a client writes for (r, g, b) yields
   * exactly (r, g, b).
   */
  lemma ParseFormatColor(r: uint8, g: uint8, b: uint8)
    ensures ParseColor(FormatColor(r, g, b)) == Some((r, g, b))
  {
    var sr, sg, sb := FormatDecimal(r), FormatDecimal(g), FormatDecimal(b);
    FormatDecimalReadsBack(r);
    FormatDecimalReadsBack(g);
    FormatDecimalReadsBack(b);
    DigitsHaveNoComma(sr);
    DigitsHaveNoComma(sg);
    DigitsHaveNoComma(sb);
    assert FormatColor(r, g, b) == sr + "," + (sg + "," + sb);
    SplitField(sr, sg + "," + sb);
    SplitField(sg, sb);
    SplitWhole(sb);
    assert Split(FormatColor(r, g, b)) == [sr, sg, sb];
  }
}
