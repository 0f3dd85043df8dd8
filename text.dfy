/**
 * String primitives the updater relies on: JavaScript's `indexOf` (first
 * occurrence of a substring) and the decimal rendering of integers that
 * `String(n)` performs.
 */
module Text {
  import opened Wrappers

  /** `pat` occurs in `s` starting at position `k`. */
  predicate OccursAt(s: string, pat: string, k: int)
  {
    0 <= k && k + |pat| <= |s| && s[k..k + |pat|] == pat
  }

  /** `pat` occurs somewhere in `s`. */
  ghost predicate Occurs(s: string, pat: string)
  {
    exists k :: OccursAt(s, pat, k)
  }

  /** Inside an occurrence, the text agrees with the pattern character by character. */
  lemma CharOfOccurrence(s: string, pat: string, k: int, i: int)
    requires OccursAt(s, pat, k) && k <= i < k + |pat|
    ensures s[i] == pat[i - k]
  {
    assert s[k..k + |pat|][i - k] == s[i];
  }

  /** An occurrence in `a` is one in `a + b` at the same place. */
  lemma OccursInConcat(a: string, b: string, pat: string, k: int)
    requires OccursAt(a, pat, k)
    ensures OccursAt(a + b, pat, k)
  {
    assert (a + b)[k..k + |pat|] == a[k..k + |pat|];
  }

  /** An occurrence in `b` is one in `a + b`, shifted by the length of `a`. */
  lemma OccursAfterConcat(a: string, b: string, pat: string, k: int)
    requires OccursAt(b, pat, k)
    ensures OccursAt(a + b, pat, |a| + k)
  {
    assert (a + b)[|a| + k..|a| + k + |pat|] == b[k..k + |pat|];
  }

  /** First occurrence of `pat` in `s` at or after position `from`. */
  function IndexFrom(s: string, pat: string, from: nat): (r: Option<nat>)
    ensures r.Some? ==> from <= r.value && OccursAt(s, pat, r.value)
    ensures r.Some? ==> forall j :: from <= j < r.value ==> !OccursAt(s, pat, j)
    ensures r.None? ==> forall j :: from <= j ==> !OccursAt(s, pat, j)
    decreases |s| - from
  {
    if from + |pat| > |s| then None
    else if s[from..from + |pat|] == pat then Some(from)
    else IndexFrom(s, pat, from + 1)
  }

  /** `s.indexOf(pat)`, with `None` standing for JavaScript's -1. */
  function IndexOf(s: string, pat: string): (r: Option<nat>)
    ensures r.Some? ==> OccursAt(s, pat, r.value)
    ensures r.Some? ==> forall j :: 0 <= j < r.value ==> !OccursAt(s, pat, j)
    ensures r.None? <==> !Occurs(s, pat)
  {
    IndexFrom(s, pat, 0)
  }

  /** The concatenation of `parts`, in order. */
  function Join(parts: seq<string>): string
  {
    if parts == [] then "" else parts[0] + Join(parts[1..])
  }

  /** Joining a list split in two joins each part and concatenates. */
  lemma {:induction false} JoinAppend(a: seq<string>, b: seq<string>)
    ensures Join(a + b) == Join(a) + Join(b)
  {
    if a != [] {
      assert (a + b)[1..] == a[1..] + b;
      JoinAppend(a[1..], b);
    } else {
      assert a + b == b;
    }
  }

  lemma JoinSingle(a: string)
    ensures Join([a]) == a
  {
    assert [a][1..] == [];
    assert a + "" == a;
  }

  lemma JoinPair(a: string, b: string)
    ensures Join([a, b]) == a + b
  {
    assert [a, b][1..] == [b];
    JoinSingle(b);
  }

  lemma JoinTriple(a: string, b: string, c: string)
    ensures Join([a, b, c]) == a + b + c
  {
    assert [a, b, c][1..] == [b, c];
    JoinPair(b, c);
  }

  /** The join of any run of consecutive parts occurs in the join of all parts, after the parts before it. */
  lemma JoinOccurs(parts: seq<string>, i: nat, j: nat)
    requires i <= j <= |parts|
    ensures OccursAt(Join(parts), Join(parts[i..j]), |Join(parts[..i])|)
  {
    assert parts == parts[..i] + parts[i..j] + parts[j..];
    JoinAppend(parts[..i] + parts[i..j], parts[j..]);
    JoinAppend(parts[..i], parts[i..j]);
    var a, p, b := Join(parts[..i]), Join(parts[i..j]), Join(parts[j..]);
    assert (a + p + b)[|a|..|a| + |p|] == p;
  }

  /** An occurrence with none before it is the one the search reports. */
  lemma IndexOfIs(s: string, pat: string, k: int)
    requires OccursAt(s, pat, k)
    requires forall j :: 0 <= j < k ==> !OccursAt(s, pat, j)
    ensures IndexOf(s, pat) == Some(k)
  {
  }

  predicate IsDigit(c: char)
  {
    '0' <= c <= '9'
  }

  predicate AllDigits(s: string)
  {
    forall i :: 0 <= i < |s| ==> IsDigit(s[i])
  }

  function DigitChar(d: nat): (c: char)
    requires d < 10
    ensures IsDigit(c)
  {
    ('0' as int + d) as char
  }

  function DigitValue(c: char): nat
    requires IsDigit(c)
  {
    (c as int - '0' as int) as nat
  }

  /** The number a string of decimal digits denotes (leading zeros allowed). */
  function DecimalValue(s: string): nat
    requires AllDigits(s)
  {
    if s == [] then 0 else 10 * DecimalValue(s[..|s| - 1]) + DigitValue(s[|s| - 1])
  }

  /** `s` is a string of decimal digits denoting `n`. */
  predicate Denotes(s: string, n: nat)
  {
    AllDigits(s) && DecimalValue(s) == n
  }

  /** `String(n)` for a non-negative integer: its digits, no leading zero. */
  function NatToString(n: nat): (r: string)
    ensures |r| >= 1 && AllDigits(r)
    ensures (|r| == 1) == (n < 10)
    ensures |r| > 1 ==> r[0] != '0'
    decreases n
  {
    if n < 10 then [DigitChar(n)] else NatToString(n / 10) + [DigitChar(n % 10)]
  }

  /** `String(i)` for any integer: a minus sign before the digits of a negative one. */
  function IntToString(i: int): string
  {
    if i < 0 then "-" + NatToString(-i) else NatToString(i)
  }

  /** Reading the digits back gives the number that was rendered. */
  lemma {:induction false} NatToStringRoundTrip(n: nat)
    ensures DecimalValue(NatToString(n)) == n
  {
    if n >= 10 {
      NatToStringRoundTrip(n / 10);
      var s := NatToString(n);
      assert s[..|s| - 1] == NatToString(n / 10);
    }
  }

  /** Distinct numbers render differently. */
  lemma NatToStringInjective(m: nat, n: nat)
    requires NatToString(m) == NatToString(n)
    ensures m == n
  {
    NatToStringRoundTrip(m);
    NatToStringRoundTrip(n);
  }

  /** `s.padStart(2, '0')`: prefix zeros until the string is two characters long. */
  function PadStart2(s: string): string
  {
    if |s| >= 2 then s else if |s| == 1 then "0" + s else "00"
  }
}
