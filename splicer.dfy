/**
 * The marker splice of `updateHTML`: keep the document up to and including
 * the first start marker, then a newline, the fragment and sixteen spaces of
 * indentation, then the document from the first end marker on. Neither the
 * order nor the uniqueness of the markers is checked.
 */
module Splicer {
  import opened Wrappers
  import opened Text

  const StartMarker := "<!-- YOUTUBE_VIDEOS_START -->"
  const EndMarker := "<!-- YOUTUBE_VIDEOS_END -->"
  /** The indentation written before the text that follows the region. */
  const Padding := "                "

  /**
   * The splice for any pair of markers: `None` when either is missing,
   * otherwise the text up to the end of the first start marker, a newline,
   * the fragment, the padding and the text from the first end marker on.
   */
  function SpliceBetween(html: string, startMarker: string, endMarker: string, fragment: string): (r: Option<string>)
    ensures r.None? <==> !Occurs(html, startMarker) || !Occurs(html, endMarker)
  {
    var startIndex := IndexOf(html, startMarker);
    var endIndex := IndexOf(html, endMarker);
    if startIndex.None? || endIndex.None? then None
    else
      var before := html[..startIndex.value + |startMarker|];
      var after := html[endIndex.value..];
      Some(before + "\n" + fragment + Padding + after)
  }

  /** The splice of `updateHTML`: the new document text, or `None` when a marker is missing and nothing is written. */
  function Splice(html: string, fragment: string): (r: Option<string>)
    ensures r.None? <==> !Occurs(html, StartMarker) || !Occurs(html, EndMarker)
  {
    SpliceBetween(html, StartMarker, EndMarker, fragment)
  }

  /** Where the kept prefix ends: just past the first start marker. */
  function PrefixEnd(html: string): nat
    requires Occurs(html, StartMarker)
  {
    IndexOf(html, StartMarker).value + |StartMarker|
  }

  /** Where the kept suffix begins: at the first end marker. */
  function SuffixStart(html: string): nat
    requires Occurs(html, EndMarker)
  {
    IndexOf(html, EndMarker).value
  }

  /** The result begins with the document up to and including its first start marker. */
  lemma SpliceKeepsPrefix(html: string, fragment: string)
    requires Splice(html, fragment).Some?
    ensures var r, p := Splice(html, fragment).value, PrefixEnd(html);
            && p <= |r| && r[..p] == html[..p]
            && OccursAt(r, StartMarker, p - |StartMarker|)
  {
    var r, p := Splice(html, fragment).value, PrefixEnd(html);
    assert r[..p] == html[..p];
    assert r[p - |StartMarker|..p] == html[p - |StartMarker|..p];
  }

  /** The result ends with the document from its first end marker on. */
  lemma SpliceKeepsSuffix(html: string, fragment: string)
    requires Splice(html, fragment).Some?
    ensures var r, e := Splice(html, fragment).value, SuffixStart(html);
            && |html| - e <= |r| && r[|r| - (|html| - e)..] == html[e..]
            && OccursAt(r, EndMarker, |r| - (|html| - e))
  {
    var r, e := Splice(html, fragment).value, SuffixStart(html);
    var k := |r| - (|html| - e);
    assert r[k..] == html[e..];
    assert r[k..k + |EndMarker|] == html[e..e + |EndMarker|];
  }

  /**
   * Between the kept prefix and the kept suffix the result holds exactly a
   * newline, the fragment and the padding, so its length is fixed by the
   * two marker positions.
   */
  lemma SpliceMiddle(html: string, fragment: string)
    requires Splice(html, fragment).Some?
    ensures var r, p, e := Splice(html, fragment).value, PrefixEnd(html), SuffixStart(html);
            && |r| == p + 1 + |fragment| + |Padding| + (|html| - e)
            && r[p] == '\n'
            && r[p + 1..p + 1 + |fragment|] == fragment
            && r[p + 1 + |fragment|..p + 1 + |fragment| + |Padding|] == Padding
  {
    var r, p := Splice(html, fragment).value, PrefixEnd(html);
    var q := p + 1 + |fragment|;
    assert r[p + 1..q] == fragment;
    assert r[q..q + |Padding|] == Padding;
  }

  /**
   * A marker that cannot begin inside the newline, fragment and padding the
   * splice inserts unless it lies inside the fragment: it holds no newline,
   * neither begins nor ends with a space and has no two spaces in a row.
   */
  predicate CannotStraddle(m: string)
  {
    && |m| > 0 && m[0] != ' ' && m[|m| - 1] != ' '
    && (forall k :: 0 <= k < |m| ==> m[k] != '\n')
    && (forall k :: 0 <= k < |m| - 1 ==> m[k] != ' ' || m[k + 1] != ' ')
  }

  lemma PaddingChars()
    ensures |Padding| == 16 && forall k :: 0 <= k < |Padding| ==> Padding[k] == ' '
  {
  }

  lemma EndMarkerCannotStraddle()
    ensures CannotStraddle(EndMarker)
  {
  }

  lemma StartMarkerChars()
    ensures forall k :: 1 <= k < |StartMarker| ==> StartMarker[k] != '<'
    ensures StartMarker[20] != EndMarker[20]
  {
  }

  /** An occurrence of the start marker at or before one of the end marker ends before it. */
  lemma MarkersDisjoint(html: string, s: nat, e: nat)
    requires OccursAt(html, StartMarker, s) && OccursAt(html, EndMarker, e) && s <= e
    ensures s + |StartMarker| <= e
  {
    if e < s + |StartMarker| {
      StartMarkerChars();
      CharOfOccurrence(html, StartMarker, s, e);
      CharOfOccurrence(html, EndMarker, e, e);
      if s == e {
        CharOfOccurrence(html, StartMarker, s, s + 20);
        CharOfOccurrence(html, EndMarker, e, e + 20);
      }
    }
  }

  /**
   * In `b`, newline, fragment, padding, `a`, a marker that cannot straddle
   * does not begin before `a` when neither `b` nor the fragment contains it.
   */
  lemma NoMarkerBeforeSuffix(b: string, fragment: string, a: string, m: string, j: nat)
    requires CannotStraddle(m) && !Occurs(b, m) && !Occurs(fragment, m)
    requires j < |b| + 1 + |fragment| + |Padding|
    ensures !OccursAt(b + "\n" + fragment + Padding + a, m, j)
  {
    var r := b + "\n" + fragment + Padding + a;
    var f, q := |b| + 1, |b| + 1 + |fragment|;
    PaddingChars();
    if j + |m| <= |r| {
      var w := r[j..j + |m|];
      if j + |m| <= |b| {
        assert w == b[j..j + |m|];
        assert !OccursAt(b, m, j);
      } else if j <= |b| {
        assert w[|b| - j] == '\n';
      } else if j + |m| <= q {
        assert w == fragment[j - f..j - f + |m|];
        assert !OccursAt(fragment, m, j - f);
      } else if q <= j {
        assert w[0] == Padding[j - q];
      } else if j + |m| == q + 1 {
        assert w[|m| - 1] == Padding[0];
      } else {
        assert w[q - j] == Padding[0] && w[q - j + 1] == Padding[1];
      }
    }
  }

  /**
   * A text laid out as a splice result, whose prefix ends with its first
   * start marker and holds no end marker and whose suffix begins with the end
   * marker, splices back to itself when the fragment holds no end marker.
   */
  lemma SpliceLaidOut(b: string, fragment: string, a: string, sm: string, em: string, s: nat)
    requires CannotStraddle(em)
    requires s + |sm| == |b| && OccursAt(b, sm, s)
    requires forall j :: 0 <= j < s ==> !OccursAt(b, sm, j)
    requires !Occurs(b, em) && !Occurs(fragment, em)
    requires OccursAt(a, em, 0)
    ensures SpliceBetween(b + "\n" + fragment + Padding + a, sm, em, fragment) == Some(b + "\n" + fragment + Padding + a)
  {
    StartFoundAgain(b, fragment, a, sm, s);
    EndFoundAgain(b, fragment, a, em);
    SpliceFound(b, fragment, a, sm, em);
  }

  /** A laid-out text whose markers are found at the seams splices back to itself. */
  lemma SpliceFound(b: string, fragment: string, a: string, sm: string, em: string)
    requires |sm| <= |b|
    requires IndexOf(b + "\n" + fragment + Padding + a, sm) == Some(|b| - |sm|)
    requires IndexOf(b + "\n" + fragment + Padding + a, em) == Some(|b| + 1 + |fragment| + |Padding|)
    ensures SpliceBetween(b + "\n" + fragment + Padding + a, sm, em, fragment) == Some(b + "\n" + fragment + Padding + a)
  {
    var r := b + "\n" + fragment + Padding + a;
    var e' := |b| + 1 + |fragment| + |Padding|;
    assert r[..|b|] == b && r[e'..] == a;
  }

  /** In a laid-out text the first start marker is still the one that ends the prefix. */
  lemma StartFoundAgain(b: string, fragment: string, a: string, sm: string, s: nat)
    requires s + |sm| == |b| && OccursAt(b, sm, s)
    requires forall j :: 0 <= j < s ==> !OccursAt(b, sm, j)
    ensures IndexOf(b + "\n" + fragment + Padding + a, sm) == Some(s)
  {
    var r := b + "\n" + fragment + Padding + a;
    assert r[s..|b|] == b[s..|b|];
    forall j | 0 <= j < s ensures !OccursAt(r, sm, j) {
      assert r[j..j + |sm|] == b[j..j + |sm|];
      assert !OccursAt(b, sm, j);
    }
    IndexOfIs(r, sm, s);
  }

  /** In a laid-out text the first end marker is the one that begins the suffix. */
  lemma EndFoundAgain(b: string, fragment: string, a: string, em: string)
    requires CannotStraddle(em)
    requires !Occurs(b, em) && !Occurs(fragment, em)
    requires OccursAt(a, em, 0)
    ensures IndexOf(b + "\n" + fragment + Padding + a, em) == Some(|b| + 1 + |fragment| + |Padding|)
  {
    var r := b + "\n" + fragment + Padding + a;
    var e' := |b| + 1 + |fragment| + |Padding|;
    assert r[e'..e' + |em|] == a[..|em|];
    forall j | 0 <= j < e' ensures !OccursAt(r, em, j) {
      NoMarkerBeforeSuffix(b, fragment, a, em, j);
    }
    IndexOfIs(r, em, e');
  }

  /**
   * For markers whose first occurrences do not overlap, start first, and an
   * end marker that cannot straddle, splicing a fragment without the end
   * marker into its own output changes nothing.
   */
  lemma SpliceBetweenIdempotent(html: string, sm: string, em: string, fragment: string)
    requires CannotStraddle(em) && Occurs(html, sm) && Occurs(html, em)
    requires IndexOf(html, sm).value + |sm| <= IndexOf(html, em).value
    requires !Occurs(fragment, em)
    ensures SpliceBetween(html, sm, em, fragment).Some?
    ensures SpliceBetween(SpliceBetween(html, sm, em, fragment).value, sm, em, fragment)
            == SpliceBetween(html, sm, em, fragment)
  {
    var s, e := IndexOf(html, sm).value, IndexOf(html, em).value;
    var p := s + |sm|;
    var b, a := html[..p], html[e..];
    assert SpliceBetween(html, sm, em, fragment) == Some(b + "\n" + fragment + Padding + a);
    assert b[s..p] == html[s..p];
    forall j | 0 <= j < s ensures !OccursAt(b, sm, j) {
      assert b[j..j + |sm|] == html[j..j + |sm|];
      assert !OccursAt(html, sm, j);
    }
    // The prefix holds no end marker: one there would come before the first.
    forall j | 0 <= j ensures !OccursAt(b, em, j) {
      if j + |em| <= |b| {
        assert html[j..j + |em|] == b[j..j + |em|];
        assert !OccursAt(html, em, j);
      }
    }
    assert a[..|em|] == html[e..e + |em|];
    SpliceLaidOut(b, fragment, a, sm, em, s);
  }

  /**
   * Splicing a fragment into its own output changes nothing, provided the
   * first start marker comes before the first end marker and the fragment
   * does not contain the end marker.
   */
  lemma SpliceIdempotent(html: string, fragment: string)
    requires Occurs(html, StartMarker) && Occurs(html, EndMarker)
    requires IndexOf(html, StartMarker).value < IndexOf(html, EndMarker).value
    requires !Occurs(fragment, EndMarker)
    ensures Splice(html, fragment).Some?
    ensures Splice(Splice(html, fragment).value, fragment) == Splice(html, fragment)
  {
    MarkersDisjoint(html, IndexOf(html, StartMarker).value, IndexOf(html, EndMarker).value);
    EndMarkerCannotStraddle();
    SpliceBetweenIdempotent(html, StartMarker, EndMarker, fragment);
  }

  /**
   * Out-of-order markers are not rejected: when the first end marker comes
   * before the first start marker, the text between them is kept twice, so
   * the result holds the end marker before the fragment and the start marker
   * after it.
   */
  lemma SpliceOutOfOrder(html: string, fragment: string)
    requires Occurs(html, StartMarker) && Occurs(html, EndMarker)
    requires IndexOf(html, EndMarker).value < IndexOf(html, StartMarker).value
    ensures var s, e := IndexOf(html, StartMarker).value, IndexOf(html, EndMarker).value;
            HoldsBothTwice(Splice(html, fragment).value, StartMarker, EndMarker, s, e, s + |StartMarker| + 1 + |fragment| + |Padding|)
  {
    var s, e := IndexOf(html, StartMarker).value, IndexOf(html, EndMarker).value;
    OutOfOrderBetween(html, StartMarker, EndMarker, fragment, s, e);
  }

  /**
   * `r` holds the start marker at `s`, the end marker at `e` and `k`, and the
   * start marker again at `k + (s - e)`.
   */
  predicate HoldsBothTwice(r: string, sm: string, em: string, s: int, e: int, k: int)
  {
    OccursAt(r, sm, s) && OccursAt(r, em, e) && OccursAt(r, em, k) && OccursAt(r, sm, k + (s - e))
  }

  /** For any markers, found end first, the result holds each marker twice. */
  lemma OutOfOrderBetween(html: string, sm: string, em: string, fragment: string, s: nat, e: nat)
    requires IndexOf(html, sm) == Some(s) && IndexOf(html, em) == Some(e) && e < s && |em| <= |sm|
    ensures HoldsBothTwice(SpliceBetween(html, sm, em, fragment).value, sm, em, s, e, s + |sm| + 1 + |fragment| + |Padding|)
  {
    assert SpliceBetween(html, sm, em, fragment) == Some(html[..s + |sm|] + "\n" + fragment + Padding + html[e..]);
    OutOfOrderBoth(html, sm, em, fragment, s, e);
  }

  lemma OutOfOrderBoth(html: string, sm: string, em: string, fragment: string, s: int, e: int)
    requires OccursAt(html, sm, s) && OccursAt(html, em, e) && e < s && |em| <= |sm|
    ensures var r := html[..s + |sm|] + "\n" + fragment + Padding + html[e..];
            var k := s + |sm| + 1 + |fragment| + |Padding|;
            && OccursAt(r, sm, s)
            && OccursAt(r, em, e)
            && OccursAt(r, em, k)
            && OccursAt(r, sm, k + (s - e))
  {
    KeptOccurrences(html, sm, em, s, e);
    LaidOutOccurrences(html[..s + |sm|], fragment, html[e..], sm, em, s, e, s - e);
  }

  /** With the end marker first, the kept prefix and the kept suffix each hold both markers. */
  lemma KeptOccurrences(html: string, sm: string, em: string, s: int, e: int)
    requires OccursAt(html, sm, s) && OccursAt(html, em, e) && e < s && |em| <= |sm|
    ensures var b, a := html[..s + |sm|], html[e..];
            && OccursAt(b, sm, s) && OccursAt(b, em, e) && OccursAt(a, em, 0) && OccursAt(a, sm, s - e)
  {
    var p := s + |sm|;
    var b, a := html[..p], html[e..];
    assert b[s..p] == html[s..p];
    assert b[e..e + |em|] == html[e..e + |em|];
    assert a[..|em|] == html[e..e + |em|];
    assert a[s - e..s - e + |sm|] == html[s..p];
  }

  /** Occurrences in the kept prefix and the kept suffix are occurrences in the splice result. */
  lemma LaidOutOccurrences(b: string, fragment: string, a: string, sm: string, em: string, i: int, j: int, k: int)
    requires OccursAt(b, sm, i) && OccursAt(b, em, j) && OccursAt(a, em, 0) && OccursAt(a, sm, k)
    ensures var r, n := b + "\n" + fragment + Padding + a, |b| + 1 + |fragment| + |Padding|;
            && OccursAt(r, sm, i) && OccursAt(r, em, j) && OccursAt(r, em, n) && OccursAt(r, sm, n + k)
  {
    var m := b + "\n" + fragment + Padding;
    OccursInConcat(b, "\n" + fragment + Padding + a, sm, i);
    OccursInConcat(b, "\n" + fragment + Padding + a, em, j);
    assert b + "\n" + fragment + Padding + a == m + a;
    OccursAfterConcat(m, a, em, 0);
    OccursAfterConcat(m, a, sm, k);
  }
}
