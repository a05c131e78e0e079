/** Scanning a captured frame for the colours a rule accepts: the detected
    list is the input filtered by the rule, in scan order. */
module Detection {
  import opened Pixels
  import opened Rules

  /** The colours of `px` that `rule` accepts, in the order they occur. */
  function Detect(rule: Rule, px: seq<Rgb>): (d: seq<Rgb>)
    ensures |d| <= |px|
    ensures forall k :: 0 <= k < |d| ==> Matches(rule, d[k])
  {
    if px == [] then []
    else
      var earlier := Detect(rule, px[..|px| - 1]);
      if Matches(rule, px[|px| - 1]) then earlier + [px[|px| - 1]] else earlier
  }

  /** `xs` can be obtained from `ys` by deleting entries: either the last
      entries agree and the rest is a subsequence, or the last entry of `ys`
      is one of the deleted ones. */
  predicate IsSubsequence<T(==)>(xs: seq<T>, ys: seq<T>)
    decreases |ys|
  {
    if xs == [] then true
    else if ys == [] then false
    else
      (xs[|xs| - 1] == ys[|ys| - 1] && IsSubsequence(xs[..|xs| - 1], ys[..|ys| - 1]))
      || IsSubsequence(xs, ys[..|ys| - 1])
  }

  /** Each colour occurs in the detected list exactly as often as in the
      input when the rule accepts it, and not at all otherwise. */
  lemma {:induction false} DetectOccurrences(rule: Rule, px: seq<Rgb>, c: Rgb)
    ensures multiset(Detect(rule, px))[c] == if Matches(rule, c) then multiset(px)[c] else 0
  {
    if px != [] {
      var init, last := px[..|px| - 1], px[|px| - 1];
      DetectOccurrences(rule, init, c);
      assert px == init + [last];
      assert multiset(px) == multiset(init) + multiset{last};
    }
  }

  /** A colour is in the detected list exactly when it occurs in the input
      and the rule accepts it. */
  lemma {:induction false} DetectMembership(rule: Rule, px: seq<Rgb>, c: Rgb)
    ensures c in Detect(rule, px) <==> c in px && Matches(rule, c)
  {
    DetectOccurrences(rule, px, c);
    assert c in Detect(rule, px) <==> multiset(Detect(rule, px))[c] > 0;
    assert c in px <==> multiset(px)[c] > 0;
  }

  /** Nothing is detected exactly when no input colour satisfies the rule. */
  lemma {:induction false} DetectEmpty(rule: Rule, px: seq<Rgb>)
    ensures Detect(rule, px) == [] <==> forall k :: 0 <= k < |px| ==> !Matches(rule, px[k])
  {
    if Detect(rule, px) != [] {
      var c := Detect(rule, px)[0];
      DetectMembership(rule, px, c);
      var k :| 0 <= k < |px| && px[k] == c;
      assert Matches(rule, px[k]);
    }
    if exists k :: 0 <= k < |px| && Matches(rule, px[k]) {
      var k :| 0 <= k < |px| && Matches(rule, px[k]);
      DetectMembership(rule, px, px[k]);
    }
  }

  /** The detected list keeps the input's scan order. */
  lemma {:induction false} DetectIsSubsequence(rule: Rule, px: seq<Rgb>)
    ensures IsSubsequence(Detect(rule, px), px)
  {
    if px != [] {
      var init := px[..|px| - 1];
      DetectIsSubsequence(rule, init);
      var d := Detect(rule, px);
      if Matches(rule, px[|px| - 1]) {
        assert d[..|d| - 1] == Detect(rule, init);
      }
    }
  }

  /** Filtering the already-detected list with a stricter rule gives the
      same list as filtering the input with the stricter rule directly. */
  lemma {:induction false} DetectNarrows(a: Rule, b: Rule, px: seq<Rgb>)
    requires AtLeastAsStrict(a, b)
    ensures Detect(a, Detect(b, px)) == Detect(a, px)
  {
    if px != [] {
      var init, last := px[..|px| - 1], px[|px| - 1];
      DetectNarrows(a, b, init);
      StricterSelectsFewer(a, b, last);
      if Matches(b, last) {
        var d := Detect(b, px);
        assert d[..|d| - 1] == Detect(b, init);
      }
    }
  }

  /** The colours a stricter rule detects form a subsequence of those a
      looser rule detects, and so are no more numerous. */
  lemma {:induction false} StricterIsSubsequence(a: Rule, b: Rule, px: seq<Rgb>)
    requires AtLeastAsStrict(a, b)
    ensures IsSubsequence(Detect(a, px), Detect(b, px))
    ensures |Detect(a, px)| <= |Detect(b, px)|
  {
    DetectNarrows(a, b, px);
    DetectIsSubsequence(a, Detect(b, px));
  }

  /** The stricter condition's detections are a subsequence of the current
      condition's, so it never reports more pixels. */
  lemma {:induction false} StrictWithinCurrent(px: seq<Rgb>)
    ensures IsSubsequence(Detect(Strict, px), Detect(Current, px))
    ensures |Detect(Strict, px)| <= |Detect(Current, px)|
  {
    StrictRefinesCurrent();
    StricterIsSubsequence(Strict, Current, px);
  }

  /** The scan loop: splits the frame into its blue, green and red planes,
      walks them index by index and keeps each (r, g, b) triple the rule
      accepts. */
  method Scan(rule: Rule, frame: Frame) returns (detected: seq<Rgb>)
    ensures detected == Detect(rule, Colors(Flatten(frame)))
    ensures |detected| <= |Flatten(frame)|
    ensures forall k :: 0 <= k < |detected| ==> Matches(rule, detected[k])
  {
    var b := Plane(frame, 0);
    var g := Plane(frame, 1);
    var r := Plane(frame, 2);
    ghost var px := Colors(Flatten(frame));
    detected := [];
    var i := 0;
    while i < |r|
      invariant 0 <= i <= |r|
      invariant detected == Detect(rule, px[..i])
    {
      var c := Rgb(r[i], g[i], b[i]);
      assert px[..i + 1][..i] == px[..i];
      assert px[i] == c;
      if Matches(rule, c) {
        detected := detected + [c];
      }
      i := i + 1;
    }
    assert px[..|r|] == px;
  }
}
