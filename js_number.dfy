/**
 * `parseInt(s, 10)` and `Number.prototype.toString()` on integers. A result
 * of `None` from `ParseInt` stands for `NaN`.
 */
module JsNumber {
  import opened Wrappers
  import opened JsString

  predicate IsDigit(c: char)
  {
    '0' <= c <= '9'
  }

  function DigitValue(c: char): (d: nat)
    requires IsDigit(c)
    ensures d < 10
  {
    c as int - '0' as int
  }

  function DigitChar(d: nat): (c: char)
    requires d < 10
    ensures IsDigit(c) && DigitValue(c) == d
  {
    (d + '0' as int) as char
  }

  /** The length of the longest run of decimal digits at the start of `s`. */
  function DigitRun(s: string): (n: nat)
    ensures n <= |s|
    ensures forall i :: 0 <= i < n ==> IsDigit(s[i])
    ensures n < |s| ==> !IsDigit(s[n])
    decreases |s|
  {
    if s == [] || !IsDigit(s[0]) then 0 else 1 + DigitRun(s[1..])
  }

  /** The value of a string of decimal digits, most significant first. */
  function DigitsValue(ds: string): nat
    requires forall i :: 0 <= i < |ds| ==> IsDigit(ds[i])
    decreases |ds|
  {
    if ds == [] then 0 else DigitsValue(ds[..|ds| - 1]) * 10 + DigitValue(ds[|ds| - 1])
  }

  /**
   * `parseInt(s, 10)`: skip leading whitespace, read an optional sign, then
   * the longest run of decimal digits; `NaN` (here `None`) when that run is
   * empty. Whatever follows the digits is ignored.
   */
  function ParseInt(s: string): Option<int>
  {
    ParseSigned(s[LeadingWhitespace(s)..])
  }

  /** What `parseInt` reads once the whitespace is skipped: an optional sign, then digits. */
  function ParseSigned(t: string): Option<int>
  {
    if t != [] && t[0] == '-' then
      match ParseDigits(t[1..])
      case Some(magnitude) => Some(-magnitude)
      case None => None
    else if t != [] && t[0] == '+' then ParseDigits(t[1..])
    else ParseDigits(t)
  }

  /** The value of the digits `u` starts with, or `NaN` when it starts with none. */
  function ParseDigits(u: string): Option<int>
  {
    var n := DigitRun(u);
    if n == 0 then None else Some(DigitsValue(u[..n]))
  }

  /** The decimal digits of `n`, without leading zeros. */
  function NatToString(n: nat): (r: string)
    ensures r != []
    ensures forall i :: 0 <= i < |r| ==> IsDigit(r[i])
    decreases n
  {
    if n < 10 then [DigitChar(n)] else NatToString(n / 10) + [DigitChar(n % 10)]
  }

  /** `n.toString()` for an integer `n`. */
  function IntToString(n: int): (r: string)
    ensures r != []
  {
    if n < 0 then "-" + NatToString(-n) else NatToString(n)
  }

  lemma {:induction false} NatToStringValue(n: nat)
    ensures DigitsValue(NatToString(n)) == n
    decreases n
  {
    var r := NatToString(n);
    if n >= 10 {
      NatToStringValue(n / 10);
      assert r[..|r| - 1] == NatToString(n / 10);
    }
  }

  /**
   * The two conversions round-trip: `parseInt(n.toString(), 10) === n`. So a
   * stored `toString` value denotes exactly one integer, and comparing stored
   * strings is comparing the integers they were made from.
   */
  lemma {:induction false} ParseIntToString(n: int)
    ensures ParseInt(IntToString(n)) == Some(n)
  {
    var m: nat := if n < 0 then -n else n;
    NatToStringValue(m);
    ParseSignedDigits(n < 0, NatToString(m));
  }

  /** `parseInt` reads an optional minus sign followed by digits as their signed value. */
  lemma {:induction false} ParseSignedDigits(negative: bool, ds: string)
    requires ds != [] && forall i :: 0 <= i < |ds| ==> IsDigit(ds[i])
    ensures var v: int := DigitsValue(ds);
      ParseInt((if negative then "-" else "") + ds) == Some(if negative then -v else v)
  {
    var sign := if negative then "-" else "";
    ParseIntReadsLeadingNumber("", negative, ds, "");
    assert "" + sign + ds + "" == sign + ds;
  }

  /**
   * `parseInt` skips leading whitespace, reads an optional minus sign and the
   * digits that follow, and ignores whatever comes after the digits.
   */
  lemma {:induction false} ParseIntReadsLeadingNumber(ws: string, negative: bool, ds: string, rest: string)
    requires Blank(ws)
    requires ds != [] && forall i :: 0 <= i < |ds| ==> IsDigit(ds[i])
    requires rest == [] || !IsDigit(rest[0])
    ensures var v: int := DigitsValue(ds);
      ParseInt(ws + (if negative then "-" else "") + ds + rest) == Some(if negative then -v else v)
  {
    var t := (if negative then "-" else "") + ds + rest;
    assert ws + (if negative then "-" else "") + ds + rest == ws + t;
    assert t[0] == if negative then '-' else ds[0];
    ParseIntSkipsBlank(ws, t);
    ParseSignedDigitsThenRest(negative, ds, rest);
  }

  lemma {:induction false} ParseSignedDigitsThenRest(negative: bool, ds: string, rest: string)
    requires ds != [] && forall i :: 0 <= i < |ds| ==> IsDigit(ds[i])
    requires rest == [] || !IsDigit(rest[0])
    ensures var v: int := DigitsValue(ds);
      ParseSigned((if negative then "-" else "") + ds + rest) == Some(if negative then -v else v)
  {
    var u := ds + rest;
    ParseDigitsStops(ds, rest);
    if negative {
      assert ("-" + ds + rest)[1..] == u;
    } else {
      assert "" + ds + rest == u && u[0] == ds[0];
    }
  }

  /** The digits read are exactly `ds` when what follows is not a digit. */
  lemma {:induction false} ParseDigitsStops(ds: string, rest: string)
    requires ds != [] && forall i :: 0 <= i < |ds| ==> IsDigit(ds[i])
    requires rest == [] || !IsDigit(rest[0])
    ensures ParseDigits(ds + rest) == Some(DigitsValue(ds) as int)
  {
    DigitRunStops(ds, rest);
    assert (ds + rest)[..|ds|] == ds;
  }

  /**
   * `parseInt` gives `NaN` when no digit follows the leading whitespace and
   * the optional sign.
   */
  lemma {:induction false} ParseIntWithoutDigits(ws: string, sign: string, rest: string)
    requires Blank(ws)
    requires sign == "" || sign == "-" || sign == "+"
    requires rest == [] || !IsDigit(rest[0])
    requires sign == "" && rest != [] ==> !IsWhitespace(rest[0]) && rest[0] != '-' && rest[0] != '+'
    ensures ParseInt(ws + sign + rest) == None
  {
    var t := sign + rest;
    assert ws + sign + rest == ws + t;
    assert t != [] ==> t[0] == if sign == "" then rest[0] else sign[0];
    ParseIntSkipsBlank(ws, t);
    var unsigned := if sign != "" then t[1..] else t;
    assert unsigned == rest;
  }

  /** `parseInt` skips whitespace in front of the text it reads. */
  lemma {:induction false} ParseIntSkipsBlank(ws: string, t: string)
    requires Blank(ws) && (t == [] || !IsWhitespace(t[0]))
    ensures ParseInt(ws + t) == ParseSigned(t)
  {
    if t == [] {
      LeadingWhitespaceOfBlank(ws);
      assert ws + t == ws;
    } else {
      LeadingWhitespaceAfterBlank(ws, t);
    }
    assert (ws + t)[|ws|..] == t;
  }

  /** Leading whitespace that ends where a non-whitespace character begins. */
  lemma {:induction false} LeadingWhitespaceAfterBlank(ws: string, t: string)
    requires Blank(ws) && t != [] && !IsWhitespace(t[0])
    ensures LeadingWhitespace(ws + t) == |ws|
    decreases |ws|
  {
    if ws == [] {
      assert ws + t == t;
    } else {
      LeadingWhitespaceAfterBlank(ws[1..], t);
      assert (ws + t)[1..] == ws[1..] + t;
    }
  }

  /** A blank string is all leading whitespace. */
  lemma {:induction false} LeadingWhitespaceOfBlank(ws: string)
    requires Blank(ws)
    ensures LeadingWhitespace(ws) == |ws|
    decreases |ws|
  {
    if ws != [] {
      LeadingWhitespaceOfBlank(ws[1..]);
    }
  }

  /** The digit run of `ds + rest` is `ds` when `rest` does not start with a digit. */
  lemma {:induction false} DigitRunStops(ds: string, rest: string)
    requires forall i :: 0 <= i < |ds| ==> IsDigit(ds[i])
    requires rest == [] || !IsDigit(rest[0])
    ensures DigitRun(ds + rest) == |ds|
    decreases |ds|
  {
    if ds == [] {
      assert ds + rest == rest;
    } else {
      DigitRunStops(ds[1..], rest);
      assert (ds + rest)[1..] == ds[1..] + rest;
    }
  }

  /**
   * `x.toString()` for a number that is an integer or `NaN` (here `None`, as
   * in `ParseInt`).
   */
  function NumberToString(x: Option<int>): (r: string)
    ensures r != []
  {
    match x
    case Some(n) => IntToString(n)
    case None => "NaN"
  }

  /**
   * Reading back what `toString` wrote gives the same number, `NaN` included,
   * so two numbers have the same string exactly when they are the same number.
   */
  lemma {:induction false} ParseNumberToString(x: Option<int>)
    ensures ParseInt(NumberToString(x)) == x
  {
    match x
    case Some(n) => ParseIntToString(n);
    case None =>
      assert LeadingWhitespace("NaN") == 0;
      assert DigitRun("NaN") == 0;
  }

  lemma {:induction false} NumberToStringInjective(x: Option<int>, y: Option<int>)
    ensures NumberToString(x) == NumberToString(y) <==> x == y
  {
    ParseNumberToString(x);
    ParseNumberToString(y);
  }
}
