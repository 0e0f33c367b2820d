/**
  The display form of a book title. Titles longer than the axis can show are
  cut to a fixed width, and the cut is marked with an ellipsis.
 */
module ShortTitle {

  /** Widest title that is shown unchanged. */
  const MaxWidth: nat := 30

  /** How many characters of a long title survive the cut. */
  const KeptPrefix: nat := 27

  /** The marker appended to a cut title. */
  const Ellipsis: string := "..."

  /** True if `t` is the ellipsis form of `s`: `s`'s first 27 characters
      followed by the marker. */
  predicate IsEllipsisOf(t: string, s: string) {
    && |s| >= KeptPrefix
    && |t| == KeptPrefix + |Ellipsis|
    && t[..KeptPrefix] == s[..KeptPrefix]
    && t[KeptPrefix..] == Ellipsis
  }

  /** The short title: a title of at most 30 characters is kept as it is, a
      longer one becomes its first 27 characters and "...", exactly 30 wide. */
  function TrimTitle(s: string): (r: string)
    ensures |r| <= MaxWidth
    ensures |s| <= MaxWidth ==> r == s
    ensures |s| > MaxWidth ==> |r| == MaxWidth && IsEllipsisOf(r, s)
  {
    if |s| > MaxWidth then s[..KeptPrefix] + Ellipsis else s
  }

  /** A title is its own short title exactly when it already fits. */
  lemma TrimTitleFixedPoint(s: string)
    ensures TrimTitle(s) == s <==> |s| <= MaxWidth
  {
    if |s| > MaxWidth {
      assert |TrimTitle(s)| == MaxWidth < |s|;
    }
  }

  /** Trimming a short title again changes nothing. */
  lemma TrimTitleIdempotent(s: string)
    ensures TrimTitle(TrimTitle(s)) == TrimTitle(s)
  {
  }

  /** Titles that agree on their first 27 characters and are both too long
      share a short title; the short form cannot tell them apart. */
  lemma TrimTitleForgetsTail(s: string, u: string)
    requires |s| > MaxWidth && |u| > MaxWidth
    ensures TrimTitle(s) == TrimTitle(u) <==> s[..KeptPrefix] == u[..KeptPrefix]
  {
    var ts, tu := TrimTitle(s), TrimTitle(u);
    if ts == tu {
      assert s[..KeptPrefix] == ts[..KeptPrefix] == tu[..KeptPrefix] == u[..KeptPrefix];
    }
  }
}
