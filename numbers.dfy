/**
 * Small value helpers shared by the whole model: an Option/Result pair,
 * Python's integer conversions (`int(x / y)` on positive divisors,
 * `int(str)`, `"%s" % n`) and sums of integer lists.
 */
module Results {
  datatype Option<+T> = None | Some(value: T)

  datatype Result<+T, +E> = Ok(value: T) | Err(error: E)
}

module Numbers {
  import opened Results

  function Max(a: int, b: int): int {
    if a >= b then a else b
  }

  /** Python's `int(a / b)` for a positive divisor: true division, then truncation toward zero. */
  function TruncDiv(a: int, b: int): int
    requires b > 0
  {
    if a >= 0 then a / b else -((-a) / b)
  }

  /** The quotient rounds toward zero: down for a non-negative dividend, up for a negative one. */
  lemma TruncDivBounds(a: int, b: int)
    requires b > 0
    ensures a >= 0 ==> TruncDiv(a, b) * b <= a < (TruncDiv(a, b) + 1) * b
    ensures a < 0 ==> (TruncDiv(a, b) - 1) * b < a <= TruncDiv(a, b) * b
  {
  }

  /** Python's `sum(xs)`. */
  function Sum(xs: seq<int>): int {
    if xs == [] then 0 else Sum(xs[..|xs| - 1]) + xs[|xs| - 1]
  }

  predicate IsDigit(c: char) {
    '0' <= c <= '9'
  }

  predicate AllDigits(s: string) {
    forall i :: 0 <= i < |s| ==> IsDigit(s[i])
  }

  /**
   * Python's `str.isspace()`: the characters `int()` and `str.strip()`
   * (without arguments) skip, and that `\s` matches in a `re` pattern.
   */
  predicate IsSpace(c: char) {
    var n := c as int;
    n == 0x20 || (0x09 <= n <= 0x0D) || (0x1C <= n <= 0x1F) || n == 0x85 || n == 0xA0
    || n == 0x1680 || (0x2000 <= n <= 0x200A) || n == 0x2028 || n == 0x2029
    || n == 0x202F || n == 0x205F || n == 0x3000
  }

  function DigitChar(d: nat): (c: char)
    requires d < 10
    ensures IsDigit(c)
  {
    ('0' as int + d) as char
  }

  /** The value of a decimal numeral, most significant digit first. */
  function DigitsValue(s: string): nat
    requires AllDigits(s)
  {
    if s == [] then 0 else DigitsValue(s[..|s| - 1]) * 10 + (s[|s| - 1] as int - '0' as int)
  }

  /** Python's `"%s" % n` for a non-negative integer. */
  function NatToString(n: nat): (r: string)
    ensures |r| >= 1 && AllDigits(r)
    ensures |r| > 1 ==> r[0] != '0'
  {
    if n < 10 then [DigitChar(n)] else NatToString(n / 10) + [DigitChar(n % 10)]
  }

  lemma {:induction false} NatToStringValue(n: nat)
    ensures DigitsValue(NatToString(n)) == n
  {
    if n >= 10 {
      NatToStringValue(n / 10);
      var s := NatToString(n);
      assert s[..|s| - 1] == NatToString(n / 10);
    }
  }

  function TrimStart(s: string): string {
    if s != [] && IsSpace(s[0]) then TrimStart(s[1..]) else s
  }

  function TrimEnd(s: string): string {
    if s != [] && IsSpace(s[|s| - 1]) then TrimEnd(s[..|s| - 1]) else s
  }

  /** Stripping the front leaves a suffix that does not start with whitespace. */
  lemma {:induction false} TrimStartShape(s: string)
    ensures |TrimStart(s)| <= |s| && TrimStart(s) == s[|s| - |TrimStart(s)|..]
    ensures TrimStart(s) != [] ==> !IsSpace(TrimStart(s)[0])
  {
    if s != [] && IsSpace(s[0]) {
      TrimStartShape(s[1..]);
    }
  }

  /** Stripping the back leaves a prefix that does not end with whitespace. */
  lemma {:induction false} TrimEndShape(s: string)
    ensures |TrimEnd(s)| <= |s| && TrimEnd(s) == s[..|TrimEnd(s)|]
    ensures TrimEnd(s) != [] ==> !IsSpace(TrimEnd(s)[|TrimEnd(s)| - 1])
  {
    if s != [] && IsSpace(s[|s| - 1]) {
      TrimEndShape(s[..|s| - 1]);
    }
  }

  /** Python's `str.strip()` with no argument. */
  function Trim(s: string): string {
    TrimEnd(TrimStart(s))
  }

  /**
   * Python's `int(s)` on a string: surrounding whitespace is skipped, an
   * optional sign is read, then one or more decimal digits. `None` stands
   * for the `ValueError` Python raises.
   */
  function ParseInt(s: string): (r: Option<int>)
  {
    var t := Trim(s);
    if |t| >= 1 && (t[0] == '-' || t[0] == '+') then
      var ds := t[1..];
      if |ds| >= 1 && AllDigits(ds) then
        var v: int := DigitsValue(ds);
        Some(if t[0] == '-' then -v else v)
      else None
    else if |t| >= 1 && AllDigits(t) then Some(DigitsValue(t))
    else None
  }

  lemma TrimDigits(s: string)
    requires |s| >= 1 && !IsSpace(s[0]) && !IsSpace(s[|s| - 1])
    ensures Trim(s) == s
  {
  }

  /** `int` reads back what `"%s" % n` writes, with or without a sign. */
  lemma ParseIntOfNat(n: nat)
    ensures ParseInt(NatToString(n)) == Some(n)
    ensures ParseInt("-" + NatToString(n)) == Some(-(n as int))
    ensures ParseInt("+" + NatToString(n)) == Some(n)
  {
    var s := NatToString(n);
    NatToStringValue(n);
    TrimDigits(s);
    assert ("-" + s)[1..] == s;
    assert ("+" + s)[1..] == s;
    TrimDigits("-" + s);
    TrimDigits("+" + s);
  }

  /** A string with a character that is neither a digit, a sign nor whitespace is not a Python integer. */
  lemma ParseIntRejects(s: string, i: nat)
    requires i < |s| && !IsDigit(s[i]) && !IsSpace(s[i]) && s[i] != '-' && s[i] != '+'
    ensures ParseInt(s) == None
  {
    var t := TrimStart(s);
    var u := TrimEnd(t);
    TrimStartShape(s);
    TrimEndShape(t);
    if ParseInt(s).Some? {
      // s[i] lies inside the trimmed part, since trimming only drops whitespace
      assert s == s[..|s| - |t|] + t;
      assert i >= |s| - |t| by {
        if i < |s| - |t| { TrimStartDropsSpaces(s, i); }
      }
      var j := i - (|s| - |t|);
      assert t[j] == s[i];
      assert j < |u| by {
        if j >= |u| { TrimEndDropsSpaces(t, j); }
      }
      assert u[j] == s[i];
    }
  }

  lemma {:induction false} TrimStartDropsSpaces(s: string, i: nat)
    requires i < |s| - |TrimStart(s)|
    ensures IsSpace(s[i])
  {
    if s != [] && IsSpace(s[0]) && i > 0 {
      TrimStartDropsSpaces(s[1..], i - 1);
    }
  }

  lemma {:induction false} TrimEndDropsSpaces(s: string, i: nat)
    requires |TrimEnd(s)| <= i < |s|
    ensures IsSpace(s[i])
  {
    if s != [] && IsSpace(s[|s| - 1]) && i < |s| - 1 {
      TrimEndDropsSpaces(s[..|s| - 1], i);
    }
  }
}
