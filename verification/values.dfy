/**
 * Cell values as they appear in a row after the table has been decoded from JSON,
 * Python's `str()` on them, and the two exceptions the modelled steps of
 * `get_json_items` raise.
 */
module Values {
  import opened Wrappers

  /** A decoded JSON scalar: integer, float (kept as the text Python prints for it),
      string, boolean or null. */
  datatype Cell =
    | IntCell(n: int)
    | FloatCell(repr: string)
    | StrCell(s: string)
    | BoolCell(b: bool)
    | NullCell

  /** A row of the table: column name to cell. */
  type Row = map<string, Cell>

  /** Exceptions raised by a failed dictionary or list lookup. */
  datatype PyError = KeyError(key: string) | IndexError

  predicate IsDigit(c: char) { '0' <= c <= '9' }

  predicate AllDigits(s: string) { forall k :: 0 <= k < |s| ==> IsDigit(s[k]) }

  function DigitChar(d: nat): (c: char)
    requires d < 10
    ensures IsDigit(c)
  {
    (('0' as int) + d) as char
  }

  function DigitValue(c: char): (d: nat)
    requires IsDigit(c)
    ensures d < 10
  {
    (c as int) - ('0' as int)
  }

  /** Decimal digits of `n`, most significant first, with no leading zero. */
  function NatToString(n: nat): (s: string)
    ensures |s| > 0 && AllDigits(s)
    ensures |s| > 1 ==> s[0] != '0'
    decreases n
  {
    if n < 10 then [DigitChar(n)] else NatToString(n / 10) + [DigitChar(n % 10)]
  }

  /** Python's `str()` on an `int`: a minus sign for negative values, then the digits. */
  function IntToString(i: int): (s: string)
    ensures |s| > 0
    ensures s[0] == '-' <==> i < 0
  {
    if i < 0 then "-" + NatToString(-i) else NatToString(i)
  }

  /** Python's `str()` on a decoded cell. */
  function Str(c: Cell): (r: string)
    ensures c.IntCell? ==> ParseInt(r) == Some(c.n)
    ensures c.FloatCell? ==> r == c.repr
    ensures c.StrCell? ==> r == c.s
    ensures c.BoolCell? ==> r == (if c.b then "True" else "False")
    ensures c.NullCell? ==> r == "None"
  {
    match c
    case IntCell(n) => IntRoundTrip(n); IntToString(n)
    case FloatCell(repr) => repr
    case StrCell(s) => s
    case BoolCell(b) => if b then "True" else "False"
    case NullCell => "None"
  }

  /** The number a string of decimal digits denotes. */
  function DigitsValue(s: string): nat
    requires AllDigits(s)
    decreases |s|
  {
    if |s| == 0 then 0 else DigitsValue(s[..|s| - 1]) * 10 + DigitValue(s[|s| - 1])
  }

  /** Reading a decimal integer back: an optional minus sign followed by at least one digit. */
  function ParseInt(s: string): Option<int>
  {
    if |s| > 1 && s[0] == '-' && AllDigits(s[1..]) then Some(-(DigitsValue(s[1..]) as int))
    else if |s| > 0 && AllDigits(s) then Some(DigitsValue(s))
    else None
  }

  lemma {:induction false} NatRoundTrip(n: nat)
    ensures DigitsValue(NatToString(n)) == n
    decreases n
  {
    var s := NatToString(n);
    if n < 10 {
      assert s[..|s| - 1] == [];
    } else {
      assert s[..|s| - 1] == NatToString(n / 10);
      NatRoundTrip(n / 10);
    }
  }

  /** `str()` on an integer can be read back: it loses nothing. */
  lemma IntRoundTrip(i: int)
    ensures ParseInt(IntToString(i)) == Some(i)
  {
    var s := IntToString(i);
    if i < 0 {
      assert s[1..] == NatToString(-i);
      NatRoundTrip(-i);
    } else {
      NatRoundTrip(i);
    }
  }

  /** Distinct integers have distinct `str()` forms. */
  lemma IntToStringInjective(a: int, b: int)
    ensures IntToString(a) == IntToString(b) <==> a == b
  {
    IntRoundTrip(a);
    IntRoundTrip(b);
  }
}
