/** String helpers that stand for the JavaScript string operations the core
    uses: `toLowerCase`, `includes`, and the decimal rendering of numbers in
    template literals. */
module Text {

  /** ASCII lower-casing of one character. */
  function LowerChar(c: char): char
  {
    if 'A' <= c <= 'Z' then (c as int + 32) as char else c
  }

  /** `s.toLowerCase()`, restricted to ASCII letters. */
  function ToLower(s: string): (r: string)
    ensures |r| == |s|
    ensures forall i :: 0 <= i < |s| ==> r[i] == LowerChar(s[i])
  {
    seq(|s|, i requires 0 <= i < |s| => LowerChar(s[i]))
  }

  /** Lower-casing leaves no ASCII capital behind, keeps every other
      character, and doing it twice is the same as doing it once. */
  lemma ToLowerFolds(s: string)
    ensures forall i :: 0 <= i < |s| ==> !('A' <= ToLower(s)[i] <= 'Z')
    ensures forall i :: 0 <= i < |s| && !('A' <= s[i] <= 'Z') ==> ToLower(s)[i] == s[i]
    ensures forall i :: 0 <= i < |s| && 'A' <= s[i] <= 'Z' ==> 'a' <= ToLower(s)[i] <= 'z'
    ensures ToLower(ToLower(s)) == ToLower(s)
  {
    var r := ToLower(s);
    var rr := ToLower(r);
    assert forall i :: 0 <= i < |s| ==> rr[i] == r[i];
  }

  /** `t` occurs in `s` starting at index `i`. */
  predicate OccursAt(s: string, t: string, i: int)
  {
    0 <= i && i + |t| <= |s| && s[i..i + |t|] == t
  }

  /** A slice of `s` starting at `i >= 1` is a slice of its tail. */
  lemma SliceShift(s: string, i: int, n: int)
    requires 1 <= i && 0 <= n && i + n <= |s|
    ensures s[i..i + n] == s[1..][i - 1..i - 1 + n]
  {
    var a := s[i..i + n];
    var b := s[1..][i - 1..i - 1 + n];
    assert forall k :: 0 <= k < n ==> a[k] == b[k];
  }

  /** `s.includes(t)`: a left-to-right search for `t` in `s`. The empty string
      is included in every string. */
  function Includes(s: string, t: string): (b: bool)
    ensures b <==> exists i :: OccursAt(s, t, i)
    decreases |s|
  {
    if |t| <= |s| && s[..|t|] == t then
      assert OccursAt(s, t, 0);
      true
    else if |s| <= |t| then
      assert !OccursAt(s, t, 0);
      false
    else
      var b := Includes(s[1..], t);
      assert forall i :: OccursAt(s[1..], t, i) <==> OccursAt(s, t, i + 1) by {
        forall i ensures OccursAt(s[1..], t, i) <==> OccursAt(s, t, i + 1) {
          if 0 <= i && i + 1 + |t| <= |s| {
            SliceShift(s, i + 1, |t|);
          }
        }
      }
      assert !OccursAt(s, t, 0);
      assert forall i :: OccursAt(s, t, i) ==> OccursAt(s[1..], t, i - 1);
      b
  }

  /** The decimal digit character for `d`. */
  function Digit(d: nat): char
    requires d < 10
  {
    ('0' as int + d) as char
  }

  predicate IsDigit(c: char)
  {
    '0' <= c <= '9'
  }

  /** The value of a string of decimal digits. */
  function DecimalValue(s: string): nat
    requires forall i :: 0 <= i < |s| ==> IsDigit(s[i])
  {
    if s == [] then 0
    else
      assert IsDigit(s[|s| - 1]);
      10 * DecimalValue(s[..|s| - 1]) + (s[|s| - 1] as int - '0' as int)
  }

  /** `${n}` for a non-negative integer: its shortest decimal rendering. */
  function NatToString(n: nat): (s: string)
    ensures |s| >= 1
    ensures forall i :: 0 <= i < |s| ==> IsDigit(s[i])
    ensures |s| > 1 ==> s[0] != '0'
    ensures n < 10 <==> |s| == 1
    ensures n < 100 <==> |s| <= 2
    ensures n < 1000 <==> |s| <= 3
    ensures DecimalValue(s) == n
  {
    if n < 10 then [Digit(n)]
    else
      var p := NatToString(n / 10);
      var s := p + [Digit(n % 10)];
      assert s[..|s| - 1] == p;
      assert n < 100 <==> n / 10 < 10;
      assert n < 1000 <==> n / 10 < 100;
      s
  }

  /** The decimal rendering is injective, so distinct numbers give distinct
      labels. */
  lemma NatToStringInjective(a: nat, b: nat)
    requires NatToString(a) == NatToString(b)
    ensures a == b
  {
    assert DecimalValue(NatToString(a)) == DecimalValue(NatToString(b));
  }

  /** In a digit string followed by a non-digit separator, the separator
      first occurs right after the digits. */
  lemma SeparatorPosition(a: string, b: string, sep: char)
    requires forall i :: 0 <= i < |a| ==> IsDigit(a[i])
    requires !IsDigit(sep)
    ensures (a + [sep] + b)[|a|] == sep
    ensures forall k :: 0 <= k < |a| ==> (a + [sep] + b)[k] != sep
  {
  }

  /** Two digit strings each followed by the same non-digit separator split
      a joined string at the same place. */
  lemma SplitAtSeparator(a: string, b: string, c: string, d: string, sep: char)
    requires forall i :: 0 <= i < |a| ==> IsDigit(a[i])
    requires forall i :: 0 <= i < |c| ==> IsDigit(c[i])
    requires !IsDigit(sep)
    requires a + [sep] + b == c + [sep] + d
    ensures a == c && b == d
  {
    var x := a + [sep] + b;
    SeparatorPosition(a, b, sep);
    SeparatorPosition(c, d, sep);
    assert |a| == |c|;
    assert a == x[..|a|] && c == x[..|c|];
    assert b == x[|a| + 1..] && d == x[|c| + 1..];
  }

  /** Three digit strings joined by dashes can be read back one by one. */
  lemma SplitDashed(a1: string, b1: string, c1: string, a2: string, b2: string, c2: string)
    requires forall i :: 0 <= i < |a1| ==> IsDigit(a1[i])
    requires forall i :: 0 <= i < |b1| ==> IsDigit(b1[i])
    requires forall i :: 0 <= i < |a2| ==> IsDigit(a2[i])
    requires forall i :: 0 <= i < |b2| ==> IsDigit(b2[i])
    requires a1 + "-" + b1 + "-" + c1 == a2 + "-" + b2 + "-" + c2
    ensures a1 == a2 && b1 == b2 && c1 == c2
  {
    assert a1 + "-" + b1 + "-" + c1 == a1 + ['-'] + (b1 + ['-'] + c1);
    assert a2 + "-" + b2 + "-" + c2 == a2 + ['-'] + (b2 + ['-'] + c2);
    SplitAtSeparator(a1, b1 + ['-'] + c1, a2, b2 + ['-'] + c2, '-');
    SplitAtSeparator(b1, c1, b2, c2, '-');
  }

  /** `${i}` for any integer. */
  function IntToString(i: int): (s: string)
    ensures |s| >= 1
    ensures s[0] == '-' <==> i < 0
    ensures i >= 0 ==> s == NatToString(i)
    ensures i < 0 ==> s[1..] == NatToString(-i)
  {
    if i < 0 then "-" + NatToString(-i) else NatToString(i)
  }

  /** Distinct integers render to distinct strings. */
  lemma IntToStringInjective(a: int, b: int)
    requires IntToString(a) == IntToString(b)
    ensures a == b
  {
    if a < 0 {
      NatToStringInjective(-a, -b);
    } else {
      NatToStringInjective(a, b);
    }
  }
}
