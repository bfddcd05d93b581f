/** The Arduino `String` operations the scanner relies on, as the ESP32 core
    implements them: `indexOf`, `lastIndexOf`, `endsWith`, `substring`,
    `toInt` (which is C's `atol`) and the decimal constructor `String(int)`. */
module ArduinoString {

  predicate IsDigit(c: char) { '0' <= c <= '9' }

  /** The characters C's `isspace` accepts: space, tab, newline, vertical
      tab, form feed and carriage return (the last five are '\t'..'\r'). */
  predicate IsSpace(c: char) { c == ' ' || '\t' <= c <= '\r' }

  function Min(a: int, b: int): (r: int) { if a <= b then a else b }

  /** `s.indexOf(c)`: the first position of `c`, or -1 when it is absent
      (`IndexOfFirst` and `IndexOfAt` say it is the first). */
  function IndexOf(s: string, c: char): (r: int)
    ensures -1 <= r < |s|
    ensures r == -1 <==> c !in s
    ensures r != -1 ==> s[r] == c
  {
    if |s| == 0 then -1
    else if s[0] == c then 0
    else
      var k := IndexOf(s[1..], c);
      if k == -1 then -1 else k + 1
  }

  /** No `c` comes before the position `indexOf` reports. */
  lemma {:induction false} IndexOfFirst(s: string, c: char)
    ensures var r := IndexOf(s, c);
      r != -1 ==> c !in s[..r]
  {
    if |s| > 0 && s[0] != c {
      IndexOfFirst(s[1..], c);
      var k := IndexOf(s[1..], c);
      if k != -1 {
        assert s[..k + 1] == [s[0]] + s[1..][..k];
      }
    }
  }

  /** A `c` at `k` with none before it is what `indexOf` finds. */
  lemma {:induction false} IndexOfAt(s: string, c: char, k: int)
    requires 0 <= k < |s| && s[k] == c && c !in s[..k]
    ensures IndexOf(s, c) == k
  {
    var r := IndexOf(s, c);
    IndexOfFirst(s, c);
    assert c in s by { assert s[k] == c; }
    forall i | 0 <= i < r ensures s[i] != c { assert s[i] == s[..r][i]; }
    forall i | 0 <= i < k ensures s[i] != c { assert s[i] == s[..k][i]; }
  }

  /** `s.lastIndexOf(c)`: the last position of `c`, or -1 when it is absent
      (`LastIndexOfLast` and `LastIndexOfAt` say it is the last). */
  function LastIndexOf(s: string, c: char): (r: int)
    ensures -1 <= r < |s|
    ensures r == -1 <==> c !in s
    ensures r != -1 ==> s[r] == c
  {
    if |s| == 0 then -1
    else if s[|s| - 1] == c then |s| - 1
    else
      var k := LastIndexOf(s[..|s| - 1], c);
      assert s == s[..|s| - 1] + [s[|s| - 1]];
      k
  }

  /** No `c` comes after the position `lastIndexOf` reports. */
  lemma {:induction false} LastIndexOfLast(s: string, c: char)
    ensures var r := LastIndexOf(s, c);
      c !in s[r + 1..]
  {
    if |s| > 0 && s[|s| - 1] != c {
      var t := s[..|s| - 1];
      LastIndexOfLast(t, c);
      var k := LastIndexOf(t, c);
      assert s[k + 1..] == t[k + 1..] + [s[|s| - 1]];
    }
  }

  /** A `c` at `k` with none after it is what `lastIndexOf` finds. */
  lemma {:induction false} LastIndexOfAt(s: string, c: char, k: int)
    requires 0 <= k < |s| && s[k] == c && c !in s[k + 1..]
    ensures LastIndexOf(s, c) == k
  {
    var r := LastIndexOf(s, c);
    LastIndexOfLast(s, c);
    assert c in s by { assert s[k] == c; }
    forall i | r < i < |s| ensures s[i] != c { assert s[i] == s[r + 1..][i - r - 1]; }
    forall i | k < i < |s| ensures s[i] != c { assert s[i] == s[k + 1..][i - k - 1]; }
  }

  /** `s.endsWith(suffix)`. */
  predicate EndsWith(s: string, suffix: string) {
    |suffix| <= |s| && s[|s| - |suffix|..] == suffix
  }

  /** `s.substring(left, right)`: the two unsigned bounds are swapped when
      `left > right`, and both are clipped to the length of `s`. */
  function Substring(s: string, left: nat, right: nat): (r: string)
    ensures left <= right ==> r == s[Min(left, |s|)..Min(right, |s|)]
    ensures right < left ==> r == s[Min(right, |s|)..Min(left, |s|)]
  {
    var lo := if left <= right then left else right;
    var hi := if left <= right then right else left;
    if lo >= |s| then [] else s[lo..Min(hi, |s|)]
  }

  /** With ordered bounds inside the string, `substring` is the slice. */
  lemma {:induction false} SubstringInOrder(s: string, left: nat, right: nat)
    requires left <= right <= |s|
    ensures Substring(s, left, right) == s[left..right]
  {
  }

  /** With the bounds swapped, `substring` is the slice between them. */
  lemma {:induction false} SubstringSwapped(s: string, left: nat, right: nat)
    requires right < left <= |s|
    ensures Substring(s, left, right) == s[right..left]
  {
  }

  /** Leading characters dropped by `atol` before the number. */
  function SkipSpace(s: string): (r: string)
    ensures |r| <= |s| && r == s[|s| - |r|..]
    ensures r == [] || !IsSpace(r[0])
  {
    if |s| > 0 && IsSpace(s[0]) then SkipSpace(s[1..]) else s
  }

  function DigitValue(c: char): (r: nat)
    requires IsDigit(c)
  {
    c as int - '0' as int
  }

  function DigitChar(d: nat): (r: char)
    requires d < 10
  {
    ('0' as int + d) as char
  }

  /** `atol`'s digit loop: starting from `acc`, fold in the leading decimal
      digits of `s`, most significant first, up to the first non-digit. */
  function ParseDigits(s: string, acc: nat): (r: nat) {
    if |s| > 0 && IsDigit(s[0]) then ParseDigits(s[1..], 10 * acc + DigitValue(s[0]))
    else acc
  }

  /** The text after any leading white space and an optional sign. */
  function Unsigned(s: string): (r: string) {
    var t := SkipSpace(s);
    if |t| > 0 && (t[0] == '-' || t[0] == '+') then t[1..] else t
  }

  /** `s.toInt()`, that is `atol(s)`: skip white space, read an optional
      sign and then the longest digit prefix; 0 when no digit follows. */
  function ToInt(s: string): (r: int) {
    var t := SkipSpace(s);
    var magnitude: int := ParseDigits(Unsigned(s), 0);
    if |t| > 0 && t[0] == '-' then -magnitude else magnitude
  }

  /** Decimal digits of a natural number, without leading zeros. */
  function NatToDecimal(n: nat): (r: string)
    ensures |r| > 0 && IsDigit(r[0])
    decreases n
  {
    if n < 10 then [DigitChar(n)]
    else NatToDecimal(n / 10) + [DigitChar(n % 10)]
  }

  /** The rendering is made of digits only, with no leading zero except
      for 0 itself. */
  lemma {:induction false} NatToDecimalDigits(n: nat)
    ensures var r := NatToDecimal(n);
      (forall i :: 0 <= i < |r| ==> IsDigit(r[i])) && (r[0] == '0' ==> n == 0)
    decreases n
  {
    if n >= 10 {
      NatToDecimalDigits(n / 10);
      var r, q := NatToDecimal(n), NatToDecimal(n / 10);
      assert r == q + [DigitChar(n % 10)];
      assert forall i :: 0 <= i < |q| ==> r[i] == q[i];
    }
  }

  /** `String(i)`: `i` in decimal, with a leading '-' when it is negative. */
  function DecimalString(i: int): (r: string)
    ensures |r| > 0
    ensures r[0] == '-' <==> i < 0
  {
    if i < 0 then "-" + NatToDecimal(-i) else NatToDecimal(i)
  }

  /** `String(i)` holds only digits and, for a negative `i`, one leading
      '-'; so neither a '.' nor a '/' ever appears in it. */
  lemma {:induction false} DecimalStringChars(i: int)
    ensures var r := DecimalString(i);
      '.' !in r && '/' !in r && '-' !in r[1..] && (i >= 0 ==> '-' !in r)
  {
    var r := DecimalString(i);
    var digits := NatToDecimal(if i < 0 then -i else i);
    NatToDecimalDigits(if i < 0 then -i else i);
    assert r[1..] == digits[1..] || r[1..] == digits;
  }

  /** Reading the digits of `x` and then those of `y` is reading `x + y`,
      when `x` is made of digits only. */
  lemma {:induction false} ParseDigitsAppend(x: string, y: string, acc: nat)
    requires forall i :: 0 <= i < |x| ==> IsDigit(x[i])
    ensures ParseDigits(x + y, acc) == ParseDigits(y, ParseDigits(x, acc))
  {
    if |x| > 0 {
      assert (x + y)[0] == x[0] && (x + y)[1..] == x[1..] + y;
      ParseDigitsAppend(x[1..], y, 10 * acc + DigitValue(x[0]));
    } else {
      assert x + y == y;
    }
  }

  /** The digit loop reads back the decimal digits of `n` as `n`. */
  lemma {:induction false} ParseDigitsOfNat(n: nat)
    ensures ParseDigits(NatToDecimal(n), 0) == n
    decreases n
  {
    if n >= 10 {
      ParseDigitsOfNat(n / 10);
      NatToDecimalDigits(n / 10);
      var c := DigitChar(n % 10);
      ParseDigitsAppend(NatToDecimal(n / 10), [c], 0);
      assert ParseDigits([c], n / 10) == 10 * (n / 10) + n % 10 by {
        assert [c][1..] == [];
      }
    } else {
      var r := NatToDecimal(n);
      assert r[1..] == [];
    }
  }

  /** `toInt` reads back what `String(i)` writes: the decimal rendering of
      an integer parses to that integer. */
  lemma {:induction false} ToIntOfDecimal(i: int)
    ensures ToInt(DecimalString(i)) == i
  {
    var r := DecimalString(i);
    var n: nat := if i < 0 then -i else i;
    var digits := NatToDecimal(n);
    assert !IsSpace(r[0]);
    assert SkipSpace(r) == r;
    if i < 0 {
      assert r == "-" + digits;
      assert r[1..] == digits;
      assert Unsigned(r) == digits;
    } else {
      assert r == digits;
      assert Unsigned(r) == digits;
    }
    ParseDigitsOfNat(n);
  }

  /** Distinct integers have distinct decimal renderings. */
  lemma {:induction false} DecimalStringInjective(i: int, j: int)
    requires DecimalString(i) == DecimalString(j)
    ensures i == j
  {
    ToIntOfDecimal(i);
    ToIntOfDecimal(j);
  }

  /** A bound whose first character after white space and sign is not a
      digit (or that is empty) makes `toInt` return 0. */
  lemma {:induction false} ToIntWithoutDigits(s: string)
    requires Unsigned(s) == [] || !IsDigit(Unsigned(s)[0])
    ensures ToInt(s) == 0
  {
  }

  /** `toInt` reads the decimal digits of `n` and stops at whatever
      follows them, when that does not start with a digit. */
  lemma {:induction false} ToIntOfDecimalThen(n: nat, t: string)
    requires t == [] || !IsDigit(t[0])
    ensures ToInt(NatToDecimal(n) + t) == n
  {
    var digits := NatToDecimal(n);
    assert (digits + t)[0] == digits[0];
    ToIntOfDigits(digits + t);
    ParseDigitsThen(n, t);
  }

  /** A text that starts with a digit is read by the digit loop alone. */
  lemma {:induction false} ToIntOfDigits(s: string)
    requires |s| > 0 && IsDigit(s[0])
    ensures ToInt(s) == ParseDigits(s, 0)
  {
    assert SkipSpace(s) == s;
    assert Unsigned(s) == s;
  }

  /** The digit loop stops right after the digits of `n`. */
  lemma {:induction false} ParseDigitsThen(n: nat, t: string)
    requires t == [] || !IsDigit(t[0])
    ensures ParseDigits(NatToDecimal(n) + t, 0) == n
  {
    NatToDecimalDigits(n);
    ParseDigitsAppend(NatToDecimal(n), t, 0);
    ParseDigitsOfNat(n);
  }
}
