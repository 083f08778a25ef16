/**
 * The content-type classifier of the subset generator (`determineContentType`
 * in app/api/generate-subset/route.ts). It works on the pathname of a URL:
 * the pathname is split on '/', empty pieces are dropped, and the segments are
 * scanned left to right for one that names a known content type.
 */
module Classifier {
  import opened Wrappers

  /** The content-type indicators, in the order the source lists them. */
  const Indicators: seq<string> := ["locations", "doctors", "conditions-and-treatments", "forms", "about"]

  /**
   * Every lower-cased segment that the classifier accepts: each indicator,
   * and each indicator followed by one more 's'.
   */
  const MatchingForms: set<string> := {
    "locations", "locationss", "doctors", "doctorss",
    "conditions-and-treatments", "conditions-and-treatmentss",
    "forms", "formss", "about", "abouts"
  }

  // ---------------------------------------------------------------------------
  // Lower-casing (ASCII only)
  // ---------------------------------------------------------------------------

  predicate IsUpper(c: char) { 'A' <= c <= 'Z' }

  function LowerChar(c: char): char {
    if IsUpper(c) then (c as int + 32) as char else c
  }

  /** `String.prototype.toLowerCase`, restricted to the ASCII letters. */
  function Lower(s: string): (r: string)
    ensures |r| == |s| && IsLowerCase(r)
    ensures forall i :: 0 <= i < |s| && !IsUpper(s[i]) ==> r[i] == s[i]
    ensures forall i :: 0 <= i < |s| && IsUpper(s[i]) ==> r[i] as int == s[i] as int + ('a' as int - 'A' as int)
  {
    seq(|s|, i requires 0 <= i < |s| => LowerChar(s[i]))
  }

  predicate IsLowerCase(s: string) {
    forall i :: 0 <= i < |s| ==> !IsUpper(s[i])
  }

  /** Lower-casing leaves no upper-case letter and is idempotent. */
  lemma LowerIsLowerCase(s: string)
    ensures |Lower(s)| == |s|
    ensures IsLowerCase(Lower(s))
    ensures Lower(Lower(s)) == Lower(s)
  {
  }

  // ---------------------------------------------------------------------------
  // Splitting a pathname into segments
  // ---------------------------------------------------------------------------

  /**
   * `pathname.split('/')`: the pieces between the separators, empty ones
   * included, so there is always one piece more than there are separators.
   */
  function Split(s: string): (parts: seq<string>)
    ensures |parts| >= 1
    ensures forall i :: 0 <= i < |parts| ==> '/' !in parts[i]
  {
    if s == [] then [[]]
    else
      var rest := Split(s[1..]);
      assert s == [s[0]] + s[1..];
      if s[0] == '/' then [[]] + rest else [[s[0]] + rest[0]] + rest[1..]
  }

  /** `parts.join('/')`, the inverse of `Split`. */
  function Join(parts: seq<string>): string
    requires |parts| >= 1
  {
    if |parts| == 1 then parts[0] else parts[0] + "/" + Join(parts[1..])
  }

  /** Joining the pieces of a split gives back the string. */
  lemma {:induction false} JoinSplit(s: string)
    ensures Join(Split(s)) == s
  {
    if s != [] {
      var rest := Split(s[1..]);
      JoinSplit(s[1..]);
      if s[0] == '/' {
        assert Split(s) == [[]] + rest;
        assert Split(s)[1..] == rest;
      } else {
        var parts := [[s[0]] + rest[0]] + rest[1..];
        assert Split(s) == parts;
        if |rest| == 1 {
          assert Join(parts) == [s[0]] + rest[0];
        } else {
          assert parts[1..] == rest[1..];
          assert Join(parts) == [s[0]] + (rest[0] + "/" + Join(rest[1..]));
        }
        assert s == [s[0]] + s[1..];
      }
    }
  }

  /** Splitting around one separator splits each side independently. */
  lemma {:induction false} SplitAtSeparator(a: string, b: string)
    ensures Split(a + "/" + b) == Split(a) + Split(b)
  {
    if a == [] {
      assert a + "/" + b == ['/'] + b;
      assert (['/'] + b)[1..] == b;
    } else {
      var s := a + "/" + b;
      assert s[0] == a[0];
      assert s[1..] == a[1..] + "/" + b;
      SplitAtSeparator(a[1..], b);
    }
  }

  /** A string without a separator is a single piece. */
  lemma {:induction false} SplitWithoutSeparator(s: string)
    requires '/' !in s
    ensures Split(s) == [s]
  {
    if s != [] {
      assert '/' !in s[1..] by {
        forall i | 0 <= i < |s[1..]| ensures s[1..][i] != '/' { assert s[1..][i] == s[i + 1]; }
      }
      SplitWithoutSeparator(s[1..]);
      assert s == [s[0]] + s[1..];
    }
  }

  /** Splitting a join of separator-free pieces gives back the pieces. */
  lemma {:induction false} SplitJoin(parts: seq<string>)
    requires |parts| >= 1
    requires forall i :: 0 <= i < |parts| ==> '/' !in parts[i]
    ensures Split(Join(parts)) == parts
  {
    SplitWithoutSeparator(parts[0]);
    if |parts| > 1 {
      SplitJoin(parts[1..]);
      SplitAtSeparator(parts[0], Join(parts[1..]));
      assert parts == [parts[0]] + parts[1..];
    }
  }

  /** `filter(Boolean)` on the pieces: the empty pieces are dropped. */
  function NonEmpty(parts: seq<string>): (r: seq<string>)
    ensures |r| <= |parts|
    ensures forall i :: 0 <= i < |r| ==> r[i] != []
    ensures forall p :: p in r <==> p in parts && p != []
  {
    if parts == [] then []
    else (if parts[0] == [] then [] else [parts[0]]) + NonEmpty(parts[1..])
  }

  lemma {:induction false} NonEmptyConcat(a: seq<string>, b: seq<string>)
    ensures NonEmpty(a + b) == NonEmpty(a) + NonEmpty(b)
  {
    if a != [] {
      assert (a + b)[1..] == a[1..] + b;
      NonEmptyConcat(a[1..], b);
    } else {
      assert a + b == b;
    }
  }

  /** The non-empty segments of a pathname, in order. */
  function Segments(pathname: string): (segs: seq<string>)
    ensures forall i :: 0 <= i < |segs| ==> segs[i] != [] && '/' !in segs[i]
  {
    var segs := NonEmpty(Split(pathname));
    assert forall i :: 0 <= i < |segs| ==> segs[i] in Split(pathname);
    segs
  }

  /** A leading slash gives the same segments. */
  lemma SegmentsIgnoreLeadingSlash(a: string)
    ensures Segments("/" + a) == Segments(a)
  {
    SplitAtSeparator([], a);
    assert [] + "/" + a == "/" + a;
    NonEmptyConcat([[]], Split(a));
  }

  /** A trailing slash gives the same segments. */
  lemma SegmentsIgnoreTrailingSlash(a: string)
    ensures Segments(a + "/") == Segments(a)
  {
    SplitAtSeparator(a, []);
    assert a + "/" + [] == a + "/";
    NonEmptyConcat(Split(a), [[]]);
  }

  /** A doubled slash gives the same segments as a single one. */
  lemma SegmentsIgnoreDoubledSlash(a: string, b: string)
    ensures Segments(a + "//" + b) == Segments(a + "/" + b)
  {
    var tail := "/" + b;
    assert a + "//" + b == a + "/" + tail;
    SplitAtSeparator(a, tail);
    SegmentsIgnoreLeadingSlash(b);
    SegmentsOfExtension(a, tail);
    SegmentsOfExtension(a, b);
  }

  /** Dropping empty pieces leaves a list of non-empty pieces unchanged. */
  lemma {:induction false} NonEmptyKeepsSegments(parts: seq<string>)
    requires forall i :: 0 <= i < |parts| ==> parts[i] != []
    ensures NonEmpty(parts) == parts
  {
    if parts != [] {
      NonEmptyKeepsSegments(parts[1..]);
    }
  }

  /**
   * Segments and the canonical pathname "/s1/s2/..." are inverse: a list of
   * non-empty, slash-free segments is recovered from its pathname.
   */
  lemma SegmentsOfCanonicalPath(segs: seq<string>)
    requires forall i :: 0 <= i < |segs| ==> segs[i] != [] && '/' !in segs[i]
    ensures Segments(Join([[]] + segs)) == segs
  {
    SplitOfCanonicalPath(segs);
    NonEmptyConcat([[]], segs);
    NonEmptyKeepsSegments(segs);
  }

  lemma SplitOfCanonicalPath(segs: seq<string>)
    requires forall i :: 0 <= i < |segs| ==> '/' !in segs[i]
    ensures Split(Join([[]] + segs)) == [[]] + segs
  {
    var parts := [[]] + segs;
    forall i | 0 <= i < |parts| ensures '/' !in parts[i] {
      if i > 0 {
        assert parts[i] == segs[i - 1];
      }
    }
    SplitJoin(parts);
  }

  /** The segments of a pathname followed by "/" and more path. */
  lemma SegmentsOfExtension(a: string, b: string)
    ensures Segments(a + "/" + b) == Segments(a) + Segments(b)
  {
    SplitAtSeparator(a, b);
    NonEmptyConcat(Split(a), Split(b));
  }

  // ---------------------------------------------------------------------------
  // Matching one segment
  // ---------------------------------------------------------------------------

  /**
   * A segment names a content type when its lower-cased form is an indicator,
   * or ends in 's' and is an indicator once that one 's' is removed.
   */
  predicate IsIndicatorMatch(part: string) {
    var lp := Lower(part);
    lp in Indicators || (|lp| > 0 && lp[|lp| - 1] == 's' && lp[..|lp| - 1] in Indicators)
  }

  /** Matching ignores case: two segments equal up to ASCII case match alike. */
  lemma MatchIgnoresCase(s: string, t: string)
    requires |s| == |t|
    requires forall i :: 0 <= i < |s| ==> s[i] == t[i] || (IsUpper(s[i]) && t[i] as int == s[i] as int + 32)
    ensures IsIndicatorMatch(s) <==> IsIndicatorMatch(t)
  {
    assert Lower(s) == Lower(t);
  }

  /**
   * The two rules together accept exactly the ten lower-cased forms in
   * `MatchingForms`; in particular a singular such as "doctor" is not one.
   */
  lemma MatchIffMatchingForm(part: string)
    ensures IsIndicatorMatch(part) <==> Lower(part) in MatchingForms
  {
    MatchingFormIff(Lower(part));
  }

  /** The same two rules, applied to a segment that is already lower-cased. */
  lemma MatchingFormIff(lp: string)
    ensures lp in Indicators || (|lp| > 0 && lp[|lp| - 1] == 's' && lp[..|lp| - 1] in Indicators)
            <==> lp in MatchingForms
  {
    if lp !in Indicators && |lp| > 0 && lp[|lp| - 1] == 's' && lp[..|lp| - 1] in Indicators {
      assert lp == lp[..|lp| - 1] + "s";
    }
    if lp == "locationss" {
      assert lp[..|lp| - 1] == "locations";
    } else if lp == "doctorss" {
      assert lp[..|lp| - 1] == "doctors";
    } else if lp == "conditions-and-treatmentss" {
      assert lp[..|lp| - 1] == "conditions-and-treatments";
    } else if lp == "formss" {
      assert lp[..|lp| - 1] == "forms";
    } else if lp == "abouts" {
      assert lp[..|lp| - 1] == "about";
    }
  }

  // ---------------------------------------------------------------------------
  // The classifier
  // ---------------------------------------------------------------------------

  /** The index of the first matching segment, scanning left to right. */
  function FirstMatch(segs: seq<string>): (r: Option<nat>)
    ensures r.Some? ==> r.value < |segs| && IsIndicatorMatch(segs[r.value])
    ensures r.Some? ==> forall j :: 0 <= j < r.value ==> !IsIndicatorMatch(segs[j])
    ensures r.None? ==> forall j :: 0 <= j < |segs| ==> !IsIndicatorMatch(segs[j])
  {
    if segs == [] then None
    else if IsIndicatorMatch(segs[0]) then Some(0)
    else match FirstMatch(segs[1..])
      case Some(i) => Some(i + 1)
      case None => None
  }

  /**
   * `determineContentType`, given the pathname of the URL: the lower-cased
   * first matching segment; otherwise the first segment as written; otherwise
   * "other".
   */
  function DetermineContentType(pathname: string): (r: string)
    ensures var segs := Segments(pathname);
      forall i :: 0 <= i < |segs| && IsIndicatorMatch(segs[i]) &&
                  (forall j :: 0 <= j < i ==> !IsIndicatorMatch(segs[j]))
        ==> r == Lower(segs[i])
    ensures var segs := Segments(pathname);
      (forall i :: 0 <= i < |segs| ==> !IsIndicatorMatch(segs[i])) ==>
        r == (if segs == [] then "other" else segs[0])
  {
    var segs := Segments(pathname);
    match FirstMatch(segs)
    case Some(i) => Lower(segs[i])
    case None => if segs == [] then "other" else segs[0]
  }

  /**
   * When some segment matches, the label is one of the ten matching forms,
   * lower-cased; it is the segment itself, not the indicator it matched.
   */
  lemma MatchedLabel(pathname: string, i: nat)
    requires i < |Segments(pathname)| && IsIndicatorMatch(Segments(pathname)[i])
    ensures DetermineContentType(pathname) in MatchingForms
    ensures IsLowerCase(DetermineContentType(pathname))
  {
    var segs := Segments(pathname);
    var k := FirstMatch(segs).value;
    MatchIffMatchingForm(segs[k]);
    LowerIsLowerCase(segs[k]);
  }

  /**
   * Once a segment has matched, whatever path follows it is ignored.
   */
  lemma LaterSegmentsIgnored(a: string, b: string, i: nat)
    requires i < |Segments(a)| && IsIndicatorMatch(Segments(a)[i])
    ensures DetermineContentType(a + "/" + b) == DetermineContentType(a)
  {
    SegmentsOfExtension(a, b);
    var segs := Segments(a);
    var k := FirstMatch(segs).value;
    var all := Segments(a + "/" + b);
    assert all[..|segs|] == segs;
    assert all[k] == segs[k];
  }

  /** The label depends on the segments only, so stray slashes never change it. */
  lemma LabelIgnoresEmptySegments(a: string, b: string)
    ensures DetermineContentType("/" + a) == DetermineContentType(a)
    ensures DetermineContentType(a + "/") == DetermineContentType(a)
    ensures DetermineContentType(a + "//" + b) == DetermineContentType(a + "/" + b)
  {
    SegmentsIgnoreLeadingSlash(a);
    SegmentsIgnoreTrailingSlash(a);
    SegmentsIgnoreDoubledSlash(a, b);
    LabelOfSegments("/" + a, a);
    LabelOfSegments(a + "/", a);
    LabelOfSegments(a + "//" + b, a + "/" + b);
  }

  /** Two pathnames with the same segments get the same label. */
  lemma LabelOfSegments(p: string, q: string)
    requires Segments(p) == Segments(q)
    ensures DetermineContentType(p) == DetermineContentType(q)
  {
  }

  // Worked examples. Each rebuilds its pathname with Join and takes the verdict
  // on each segment from the two lemmas below, so that the verifier reasons
  // from those lemmas instead of unfolding the recursive definitions on the
  // literal.

  /** An indicator matches in any case and with one trailing 's'. */
  lemma ExampleMatchingSegments()
    ensures IsIndicatorMatch("about") && IsIndicatorMatch("Abouts")
  {
    assert IsIndicatorMatch("about") by {
      assert Lower("about") == "about";
    }
    assert IsIndicatorMatch("Abouts") by {
      assert Lower("Abouts") == "abouts";
      MatchIffMatchingForm("Abouts");
    }
  }

  /** A singular such as "doctor" does not match, and neither does an ordinary word. */
  lemma ExampleUnmatchedSegments()
    ensures !IsIndicatorMatch("doctor") && !IsIndicatorMatch("Team")
    ensures !IsIndicatorMatch("Blog") && !IsIndicatorMatch("blog") && !IsIndicatorMatch("post-1")
  {
    assert !IsIndicatorMatch("doctor") by {
      assert Lower("doctor") == "doctor";
      MatchIffMatchingForm("doctor");
    }
    assert !IsIndicatorMatch("Team") by {
      assert Lower("Team") == "team";
      MatchIffMatchingForm("Team");
    }
    assert !IsIndicatorMatch("Blog") by {
      assert Lower("Blog") == "blog";
      MatchIffMatchingForm("Blog");
    }
    assert !IsIndicatorMatch("post-1") by {
      assert Lower("post-1") == "post-1";
      MatchIffMatchingForm("post-1");
    }
  }

  /** "/about/team/jane" is labelled "about": the first matching segment wins. */
  lemma ExampleFirstMatchWins()
    ensures DetermineContentType("/about/team/jane") == "about"
  {
    assert Join(["", "about", "team", "jane"]) == "/about/team/jane";
    SegmentsOfCanonicalPath(["about", "team", "jane"]);
    ExampleMatchingSegments();
    assert Lower("about") == "about";
  }

  /** "/Blog/Abouts" is labelled "abouts": the segment itself, lower-cased, not the indicator. */
  lemma ExamplePluralSegment()
    ensures DetermineContentType("/Blog/Abouts") == "abouts"
  {
    assert Join(["", "Blog", "Abouts"]) == "/Blog/Abouts";
    SegmentsOfCanonicalPath(["Blog", "Abouts"]);
    ExampleMatchingSegments();
    ExampleUnmatchedSegments();
    assert Lower("Abouts") == "abouts";
  }

  /** "/Team/doctor" is labelled "Team": a singular segment does not match, and the fallback keeps the case. */
  lemma ExampleFallbackKeepsCase()
    ensures DetermineContentType("/Team/doctor") == "Team"
  {
    assert Join(["", "Team", "doctor"]) == "/Team/doctor";
    SegmentsOfCanonicalPath(["Team", "doctor"]);
    ExampleUnmatchedSegments();
  }

  /** "/blog/post-1" is labelled "blog". */
  lemma ExampleFirstSegmentFallback()
    ensures DetermineContentType("/blog/post-1") == "blog"
  {
    assert Join(["", "blog", "post-1"]) == "/blog/post-1";
    SegmentsOfCanonicalPath(["blog", "post-1"]);
    ExampleUnmatchedSegments();
  }

  /** A pathname with no segment at all, such as "/" or "//", is labelled "other". */
  lemma ExampleNoSegments(pathname: string)
    requires forall i :: 0 <= i < |pathname| ==> pathname[i] == '/'
    ensures DetermineContentType(pathname) == "other"
  {
    SplitOfSlashes(pathname);
    NonEmptyOfEmptyPieces(Split(pathname));
  }

  lemma {:induction false} SplitOfSlashes(s: string)
    requires forall i :: 0 <= i < |s| ==> s[i] == '/'
    ensures forall i :: 0 <= i < |Split(s)| ==> Split(s)[i] == []
  {
    if s != [] {
      SplitOfSlashes(s[1..]);
    }
  }

  lemma {:induction false} NonEmptyOfEmptyPieces(parts: seq<string>)
    requires forall i :: 0 <= i < |parts| ==> parts[i] == []
    ensures NonEmpty(parts) == []
  {
    if parts != [] {
      NonEmptyOfEmptyPieces(parts[1..]);
    }
  }

}
