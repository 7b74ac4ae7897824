/**
 * The few JavaScript string built-ins the subnet calculator relies on, on the
 * inputs it gives them: `String.prototype.split` and `Array.prototype.join`
 * with a one-character separator, `Number`/`parseInt` applied to a string of
 * decimal digits, `parseInt(s, 2)` applied to a string of binary digits, and
 * the decimal rendering of a non-negative integer.
 */
module JsText {
  import opened Bits

  /** A character matched by `\d` in a (non-Unicode) JavaScript regular expression. */
  predicate IsDigit(c: char) {
    '0' <= c <= '9'
  }

  predicate AllDigits(s: string) {
    forall i :: 0 <= i < |s| ==> IsDigit(s[i])
  }

  function Pow10(n: nat): (r: nat)
    ensures r >= 1
  {
    if n == 0 then 1 else 10 * Pow10(n - 1)
  }

  /**
   * The value `Number(s)` and `parseInt(s)` give for a non-empty string of
   * decimal digits: leading zeros are read as decimal, never as octal.
   */
  function DecimalValue(s: string): (v: nat)
    requires AllDigits(s)
    ensures v < Pow10(|s|)
  {
    if s == [] then 0
    else 10 * DecimalValue(s[..|s| - 1]) + (s[|s| - 1] as int - '0' as int)
  }

  function DigitChar(d: nat): (c: char)
    requires d < 10
    ensures IsDigit(c) && c as int - '0' as int == d
  {
    ('0' as int + d) as char
  }

  /** `String(n)` for a non-negative integer: its decimal digits, no leading zero. */
  function DecimalString(n: nat): (s: string)
    ensures 1 <= |s| && AllDigits(s)
    ensures DecimalValue(s) == n
  {
    if n < 10 then [DigitChar(n)]
    else
      var s := DecimalString(n / 10) + [DigitChar(n % 10)];
      assert s[..|s| - 1] == DecimalString(n / 10);
      s
  }

  /** A number below 10^k is rendered in at most k digits. */
  lemma {:induction false} DecimalStringLength(n: nat, k: nat)
    requires 1 <= k && n < Pow10(k)
    ensures |DecimalString(n)| <= k
  {
    if n >= 10 {
      DecimalStringLength(n / 10, k - 1);
    }
  }

  /** The characters a `parseInt(s, 2)` call of the calculator is given. */
  predicate AllBinary(s: string) {
    forall i :: 0 <= i < |s| ==> s[i] == '0' || s[i] == '1'
  }

  /** `parseInt(s, 2)` for a string of binary digits. */
  function BinaryValue(s: string): (v: nat)
    requires AllBinary(s)
    ensures v < Pow2(|s|)
  {
    if s == [] then 0
    else 2 * BinaryValue(s[..|s| - 1]) + (if s[|s| - 1] == '1' then 1 else 0)
  }

  /** `c.repeat(n)`. */
  function Repeat(c: char, n: nat): (s: string)
    ensures |s| == n
    ensures forall i :: 0 <= i < n ==> s[i] == c
  {
    if n == 0 then [] else [c] + Repeat(c, n - 1)
  }

  /** `a` ones followed by `b` zeros: the mask text of one octet. */
  function OnesThenZeros(a: nat, b: nat): (s: string)
    ensures |s| == a + b && AllBinary(s)
    ensures forall i :: 0 <= i < |s| ==> s[i] == if i < a then '1' else '0'
  {
    Repeat('1', a) + Repeat('0', b)
  }

  /** `a` ones followed by `b` zeros, read in base 2, is (2^a - 1) * 2^b. */
  lemma {:induction false} OnesThenZerosValue(a: nat, b: nat)
    ensures BinaryValue(OnesThenZeros(a, b)) == (Pow2(a) - 1) * Pow2(b)
  {
    if b > 0 {
      OnesThenZerosValue(a, b - 1);
      ShiftInZero(a, b);
      DoubleProduct(Pow2(a) - 1, Pow2(b - 1));
    } else if a > 0 {
      OnesThenZerosValue(a - 1, 0);
      ShiftInOne(a);
    }
  }

  /** One more trailing zero doubles the value. */
  lemma ShiftInZero(a: nat, b: nat)
    requires b > 0
    ensures BinaryValue(OnesThenZeros(a, b)) == 2 * BinaryValue(OnesThenZeros(a, b - 1))
  {
    var s := OnesThenZeros(a, b);
    assert s[..|s| - 1] == OnesThenZeros(a, b - 1);
  }

  /** With no zeros, one more one doubles the value and adds one. */
  lemma ShiftInOne(a: nat)
    requires a > 0
    ensures BinaryValue(OnesThenZeros(a, 0)) == 2 * BinaryValue(OnesThenZeros(a - 1, 0)) + 1
  {
    var s := OnesThenZeros(a, 0);
    assert s[..|s| - 1] == OnesThenZeros(a - 1, 0);
  }

  lemma DoubleProduct(m: int, x: int)
    ensures 2 * (m * x) == m * (2 * x)
  {
  }

  /**
   * `parts.join(sep)`: the parts with one separator between neighbours
   * (an empty array joins to the empty string).
   */
  function Join(parts: seq<string>, sep: char): (s: string)
    ensures |parts| == 1 ==> s == parts[0]
  {
    if |parts| == 0 then ""
    else if |parts| == 1 then parts[0]
    else parts[0] + [sep] + Join(parts[1..], sep)
  }

  /**
   * `s.split(sep)` for a one-character separator: the maximal runs of
   * characters other than `sep`, in order; there is always one more part
   * than there are separators in `s`.
   */
  function Split(s: string, sep: char): (parts: seq<string>)
    ensures |parts| >= 1
    ensures forall i :: 0 <= i < |parts| ==> sep !in parts[i]
    decreases |s|
  {
    if s == [] then [""]
    else if s[0] == sep then [""] + Split(s[1..], sep)
    else
      var rest := Split(s[1..], sep);
      [[s[0]] + rest[0]] + rest[1..]
  }

  /** Joining the parts of a split with the same separator gives the string back. */
  lemma {:induction false} JoinSplit(s: string, sep: char)
    ensures Join(Split(s, sep), sep) == s
    decreases |s|
  {
    if s != [] {
      JoinSplit(s[1..], sep);
      var rest := Split(s[1..], sep);
      if s[0] == sep {
        assert Split(s, sep) == [""] + rest;
        assert Split(s, sep)[1..] == rest;
      } else {
        var parts := Split(s, sep);
        assert parts == [[s[0]] + rest[0]] + rest[1..];
        if |rest| == 1 {
          assert parts == [[s[0]] + rest[0]];
        } else {
          assert parts[1..] == rest[1..];
          assert Join(rest, sep) == rest[0] + [sep] + Join(rest[1..], sep);
        }
      }
    }
  }

  /** A string without the separator splits into itself alone. */
  lemma {:induction false} SplitNoSeparator(x: string, sep: char)
    requires sep !in x
    ensures Split(x, sep) == [x]
    decreases |x|
  {
    if x != [] {
      SplitNoSeparator(x[1..], sep);
      assert [x[0]] + x[1..] == x;
    }
  }

  /** Splitting at the first separator peels off the text before it. */
  lemma {:induction false} SplitAtFirst(x: string, sep: char, y: string)
    requires sep !in x
    ensures Split(x + [sep] + y, sep) == [x] + Split(y, sep)
    decreases |x|
  {
    var s := x + [sep] + y;
    if x == [] {
      assert s[1..] == y;
    } else {
      assert s[1..] == x[1..] + [sep] + y;
      SplitAtFirst(x[1..], sep, y);
      assert [x[0]] + x[1..] == x;
    }
  }

  /** A character that is neither the separator nor in any part is not in their join. */
  lemma {:induction false} JoinAvoids(parts: seq<string>, sep: char, c: char)
    requires c != sep
    requires forall i :: 0 <= i < |parts| ==> c !in parts[i]
    ensures c !in Join(parts, sep)
    decreases |parts|
  {
    if |parts| > 1 {
      JoinAvoids(parts[1..], sep, c);
    }
  }

  /** Splitting a join of separator-free parts gives the parts back. */
  lemma {:induction false} SplitJoin(parts: seq<string>, sep: char)
    requires |parts| >= 1
    requires forall i :: 0 <= i < |parts| ==> sep !in parts[i]
    ensures Split(Join(parts, sep), sep) == parts
    decreases |parts|
  {
    if |parts| == 1 {
      SplitNoSeparator(parts[0], sep);
    } else {
      SplitJoin(parts[1..], sep);
      SplitAtFirst(parts[0], sep, Join(parts[1..], sep));
      assert [parts[0]] + parts[1..] == parts;
    }
  }
}
