/** The two display helpers the book card and the book detail view share: the star row of a
    rating and the hyphenation of an ISBN-13. */
module BookDisplay {
  import opened Common
  import opened Text
  import opened Collections

  // ---------------------------------------------------------------- stars

  /** `Math.floor(rating)`, the number of full stars the loop adds (none when negative). */
  function FullStars(rating: real): int {
    rating.Floor
  }

  /** `rating - fullStars >= 0.5`. */
  predicate HasHalfStar(rating: real) {
    rating - rating.Floor as real >= 0.5
  }

  /** The stars before the padding: the full ones and the optional half one. */
  function Marked(rating: real): nat {
    (if FullStars(rating) > 0 then FullStars(rating) else 0) + (if HasHalfStar(rating) then 1 else 0)
  }

  /** The star row of a rating: full stars (1), then at most one half star (0.5), then empty
      stars (0) up to a length of five; never shortened. */
  function Stars(rating: real): (r: seq<real>)
    ensures |r| == if Marked(rating) < 5 then 5 else Marked(rating)
    ensures forall i :: 0 <= i < |r| ==> (r[i] == 1.0 <==> i < FullStars(rating))
    ensures forall i :: 0 <= i < |r| ==>
      (r[i] == 0.5 <==> HasHalfStar(rating) && i == Marked(rating) - 1)
    ensures forall i :: 0 <= i < |r| ==> (r[i] == 0.0 <==> i >= Marked(rating))
  {
    var full := if FullStars(rating) > 0 then FullStars(rating) else 0;
    var marked := seq(full, _ => 1.0) + (if HasHalfStar(rating) then [0.5] else []);
    marked + seq(if |marked| < 5 then 5 - |marked| else 0, _ => 0.0)
  }

  /** The row never goes up: full stars come before the half star, which comes before the
      empty ones. */
  lemma StarsNonIncreasing(rating: real, i: nat, j: nat)
    requires i < j < |Stars(rating)|
    ensures Stars(rating)[i] >= Stars(rating)[j]
  {
    var r := Stars(rating);
    assert r[i] == 1.0 || r[i] == 0.5 || r[i] == 0.0;
    assert r[j] == 1.0 || r[j] == 0.5 || r[j] == 0.0;
  }

  /** On the 0 to 5 scale the row has exactly five stars, and the full stars are the rating
      rounded down. */
  lemma StarsOnScale(rating: real)
    requires 0.0 <= rating <= 5.0
    ensures |Stars(rating)| == 5
    ensures forall i :: 0 <= i < 5 ==> (Stars(rating)[i] == 1.0 <==> i < rating.Floor)
  {
    if rating.Floor == 5 {
      assert rating == 5.0;
      assert !HasHalfStar(rating);
    }
  }

  /** `getStars(rating)` as written: a loop of full stars, an optional half star, then a
      padding loop. */
  method BuildStars(rating: real) returns (stars: seq<real>)
    ensures stars == Stars(rating)
  {
    ghost var spec := Stars(rating);
    stars := [];
    var fullStars := rating.Floor;
    var hasHalfStar := rating - fullStars as real >= 0.5;
    var i := 0;
    while i < fullStars
      invariant 0 <= i <= (if fullStars > 0 then fullStars else 0) <= Marked(rating)
      invariant stars == spec[..i]
    {
      assert spec[i] == 1.0;
      stars := stars + [1.0];
      i := i + 1;
    }
    assert i == if fullStars > 0 then fullStars else 0;
    if hasHalfStar {
      assert HasHalfStar(rating) && i == Marked(rating) - 1;
      stars := stars + [0.5];
    }
    while |stars| < 5
      invariant Marked(rating) <= |stars| <= |spec|
      invariant stars == spec[..|stars|]
    {
      stars := stars + [0.0];
    }
  }

  // ---------------------------------------------------------------- ISBN hyphenation

  /** The number of digits the pattern `(\d{3})(\d{1})(\d{5})(\d{3})(\d{1})` matches. */
  const IsbnLength := 13

  /** Thirteen ASCII digits start at `i`. */
  predicate DigitRunAt(s: string, i: nat) {
    i + IsbnLength <= |s| && forall k :: i <= k < i + IsbnLength ==> IsDigit(s[k])
  }

  /** The leftmost match of the pattern at or after `from`. */
  function FirstDigitRunFrom(s: string, from: nat): (r: Option<nat>)
    ensures r.Some? ==> from <= r.value && DigitRunAt(s, r.value)
    ensures r.Some? ==> forall j :: from <= j < r.value ==> !DigitRunAt(s, j)
    ensures r.None? ==> forall j :: from <= j ==> !DigitRunAt(s, j)
    decreases |s| - from
  {
    if from + IsbnLength > |s| then None
    else if DigitRunAt(s, from) then Some(from)
    else FirstDigitRunFrom(s, from + 1)
  }

  /** Where the (non-global) regular expression matches first, if anywhere. */
  function FirstDigitRun(s: string): Option<nat> {
    FirstDigitRunFrom(s, 0)
  }

  /** `'$1-$2-$3-$4-$5'` on thirteen characters: hyphens after the 3rd, 4th, 9th and 12th. */
  function Hyphenate(d: string): (r: string)
    requires |d| == IsbnLength
    ensures |r| == 17
    ensures r[3] == '-' && r[5] == '-' && r[11] == '-' && r[15] == '-'
    ensures r[..3] == d[..3] && r[4] == d[3] && r[6..11] == d[4..9] && r[12..15] == d[9..12] && r[16] == d[12]
  {
    d[..3] + "-" + d[3..4] + "-" + d[4..9] + "-" + d[9..12] + "-" + d[12..]
  }

  /** `formatIsbn(isbn)`: the first run of thirteen digits is hyphenated 3-1-5-3-1; the rest
      of the string, including any further digits, is kept as it is. */
  function FormatIsbn(s: string): (r: string)
    ensures FirstDigitRun(s).None? ==> r == s
    ensures FirstDigitRun(s).Some? ==> |r| == |s| + 4
  {
    match FirstDigitRun(s)
    case None => s
    case Some(i) => s[..i] + Hyphenate(s[i..i + IsbnLength]) + s[i + IsbnLength..]
  }

  /** The output differs from the input exactly when the input holds thirteen digits in a row. */
  lemma FormatIsbnChangesIffRun(s: string)
    ensures FormatIsbn(s) == s <==> forall j :: !DigitRunAt(s, j)
  {
    match FirstDigitRun(s)
    case None =>
    case Some(i) =>
      assert |FormatIsbn(s)| != |s|;
  }

  /** A thirteen-digit ISBN becomes 17 characters: the digits in order, hyphens after the 3rd,
      4th, 9th and 12th. */
  lemma FormatIsbnOfIsbn(s: string)
    requires |s| == IsbnLength && AllDigits(s)
    ensures FormatIsbn(s) == Hyphenate(s)
  {
    assert DigitRunAt(s, 0);
    assert FirstDigitRun(s) == Some(0);
    assert s[0..IsbnLength] == s;
    var h := Hyphenate(s);
    assert s[..0] + h + s[IsbnLength..] == h;
  }

  predicate NotHyphen(c: char) {
    c != '-'
  }

  /** The string with every hyphen deleted. */
  function RemoveHyphens(s: string): (r: string)
    ensures forall c :: c in r <==> c in s && c != '-'
  {
    Filter(s, NotHyphen)
  }

  lemma RemoveHyphensOfDigits(d: string)
    requires AllDigits(d)
    ensures RemoveHyphens(d) == d
  {
    FilterKeepsAll(d, NotHyphen);
  }

  lemma RemoveHyphensAppend(a: string, b: string)
    ensures RemoveHyphens(a + b) == RemoveHyphens(a) + RemoveHyphens(b)
  {
    FilterAppend(a, b, NotHyphen);
  }

  lemma RemoveHyphensOfHyphen()
    ensures RemoveHyphens("-") == []
  {
    assert "-"[..0] == [] && !NotHyphen("-"[0]);
  }

  /** Deleting the hyphens of a string, a hyphen and a group of digits. */
  lemma RemoveHyphensThenGroup(acc: string, group: string)
    requires AllDigits(group)
    ensures RemoveHyphens(acc + "-" + group) == RemoveHyphens(acc) + group
  {
    RemoveHyphensAppend(acc + "-", group);
    RemoveHyphensAppend(acc, "-");
    RemoveHyphensOfDigits(group);
    RemoveHyphensOfHyphen();
  }

  /** One more hyphen and digit group `d[k..m]` behind a prefix that stands for `d[..k]`. */
  lemma RemoveHyphensStep(p: string, d: string, k: nat, m: nat)
    requires AllDigits(d) && k <= m <= |d| && RemoveHyphens(p) == d[..k]
    ensures RemoveHyphens(p + "-" + d[k..m]) == d[..m]
  {
    assert AllDigits(d[k..m]);
    RemoveHyphensThenGroup(p, d[k..m]);
    assert d[..k] + d[k..m] == d[..m];
  }

  lemma RemoveHyphensOfHyphenate(d: string)
    requires |d| == IsbnLength && AllDigits(d)
    ensures RemoveHyphens(Hyphenate(d)) == d
  {
    var p1 := d[..3];
    var p2 := p1 + "-" + d[3..4];
    var p3 := p2 + "-" + d[4..9];
    var p4 := p3 + "-" + d[9..12];
    var p5 := p4 + "-" + d[12..13];
    assert Hyphenate(d) == p5;
    RemoveHyphensOfDigits(p1);
    RemoveHyphensStep(p1, d, 3, 4);
    RemoveHyphensStep(p2, d, 4, 9);
    RemoveHyphensStep(p3, d, 9, 12);
    RemoveHyphensStep(p4, d, 12, 13);
    assert d[..13] == d;
  }

  /** Replacing a middle part by one with the same letters other than hyphens does not change
      the string without hyphens. */
  lemma RemoveHyphensSplice(pre: string, mid: string, mid': string, post: string)
    requires RemoveHyphens(mid) == RemoveHyphens(mid')
    ensures RemoveHyphens(pre + mid + post) == RemoveHyphens(pre + mid' + post)
  {
    RemoveHyphensAppend(pre + mid, post);
    RemoveHyphensAppend(pre, mid);
    RemoveHyphensAppend(pre + mid', post);
    RemoveHyphensAppend(pre, mid');
  }

  /** Hyphenating one run of thirteen digits in place adds only hyphens. */
  lemma RemoveHyphensOfHyphenatedRun(s: string, i: nat)
    requires DigitRunAt(s, i)
    ensures RemoveHyphens(s[..i] + Hyphenate(s[i..i + IsbnLength]) + s[i + IsbnLength..]) == RemoveHyphens(s)
  {
    var run := s[i..i + IsbnLength];
    assert AllDigits(run);
    RemoveHyphensOfHyphenate(run);
    RemoveHyphensOfDigits(run);
    RemoveHyphensSplice(s[..i], Hyphenate(run), run, s[i + IsbnLength..]);
    assert s[..i] + run + s[i + IsbnLength..] == s;
  }

  /** Deleting the hyphens undoes the formatting: formatting adds hyphens and nothing else.
      On a thirteen-digit ISBN this gives the input back. */
  lemma FormatIsbnRoundTrip(s: string)
    ensures RemoveHyphens(FormatIsbn(s)) == RemoveHyphens(s)
    ensures |s| == IsbnLength && AllDigits(s) ==> RemoveHyphens(FormatIsbn(s)) == s
  {
    var run := FirstDigitRun(s);
    if run.Some? {
      var i := run.value;
      assert FormatIsbn(s) == s[..i] + Hyphenate(s[i..i + IsbnLength]) + s[i + IsbnLength..];
      RemoveHyphensOfHyphenatedRun(s, i);
    } else {
      assert FormatIsbn(s) == s;
    }
    if |s| == IsbnLength && AllDigits(s) {
      RemoveHyphensOfDigits(s);
    }
  }

  /** A hyphenated ISBN holds no thirteen digits in a row, so formatting it again changes
      nothing. */
  lemma FormatIsbnIdempotentOnIsbn(s: string)
    requires |s| == IsbnLength && AllDigits(s)
    ensures FormatIsbn(FormatIsbn(s)) == FormatIsbn(s)
  {
    FormatIsbnOfIsbn(s);
    var h := Hyphenate(s);
    forall j: nat ensures !DigitRunAt(h, j) {
      if j + IsbnLength <= |h| {
        assert j <= 5 < j + IsbnLength && h[5] == '-';
      }
    }
    FormatIsbnChangesIffRun(h);
  }
}
