/** The colour analysis of one captured minimap frame: both rules are run
    over the frame, and for each one either "nothing detected" or the number
    of detected pixels and the ten most common detected colours is reported. */
module ColorTest {
  import opened Pixels
  import opened Rules
  import opened Detection
  import opened Counter

  /** How many histogram entries a report lists. */
  const TopCount := 10

  /** What is reported for one rule. */
  datatype Report =
    | NothingDetected
    | Detected(pixelCount: nat, top: Histogram)
  {
    /** The (colour, count) lines printed: none in the empty branch. */
    function Listed(): Histogram {
      if Detected? then top else []
    }
  }

  /** The report for a detected list: the empty-list branch, or the count
      and the most common colours with their counts. */
  function Summarize(detected: seq<Rgb>): (rep: Report)
    ensures rep.NothingDetected? <==> detected == []
    ensures rep.Detected? ==> rep.pixelCount == |detected|
    ensures rep.Detected? ==> |rep.top| <= TopCount && NonIncreasing(rep.top)
    ensures rep.Detected? ==> forall e :: e in rep.top ==> e.color in detected && e.count == multiset(detected)[e.color] > 0
    ensures rep.Detected? ==> |rep.top| == TopCount || (set e | e in rep.top :: e.color) == (set c | c in detected)
    ensures rep.Detected? ==> forall i, j :: 0 <= i < j < |rep.top| ==> rep.top[i].color != rep.top[j].color
    ensures rep.Detected? ==> forall c, e :: c in detected && e in rep.top && c !in (set x | x in rep.top :: x.color) ==>
      multiset(detected)[c] <= e.count
  {
    if detected == [] then NothingDetected
    else
      var top := MostCommon(Tally(detected), TopCount);
      ListingFacts(detected, top);
      Detected(|detected|, top)
  }

  /** What the listing of a non-empty detected list says about it. */
  lemma ListingFacts(detected: seq<Rgb>, top: Histogram)
    requires top == MostCommon(Tally(detected), TopCount)
    ensures |top| <= TopCount && NonIncreasing(top)
    ensures forall e :: e in top ==> e.color in detected && e.count == multiset(detected)[e.color] > 0
    ensures |top| == TopCount || (set e | e in top :: e.color) == (set c | c in detected)
    ensures forall i, j :: 0 <= i < j < |top| ==> top[i].color != top[j].color
    ensures forall c, e :: c in detected && e in top && c !in (set x | x in top :: x.color) ==>
      multiset(detected)[c] <= e.count
  {
    ListingIsTop(detected, Tally(detected), top);
    ListedCounts(detected, top);
    ShortListingCoversAll(detected, top);
  }

  /** Each listed entry is a detected colour with its exact count. */
  lemma ListedCounts(detected: seq<Rgb>, top: Histogram)
    requires top == MostCommon(Tally(detected), TopCount)
    ensures forall e :: e in top ==> e.color in detected && e.count == multiset(detected)[e.color] > 0
  {
    TallyEntries(detected);
    forall e | e in top
      ensures e.color in detected && e.count == multiset(detected)[e.color] > 0
    {
      assert e in Tally(detected);
    }
  }

  /** A listing shorter than the limit names every detected colour. */
  lemma ShortListingCoversAll(detected: seq<Rgb>, top: Histogram)
    requires top == MostCommon(Tally(detected), TopCount)
    ensures |top| == TopCount || (set e | e in top :: e.color) == (set c | c in detected)
  {
    var h := Tally(detected);
    if |top| < TopCount {
      TopIsWholeHistogram(h, top);
      SameEntriesSameColors(h, top);
      KeysOfEntries(h);
    }
  }

  /** The listed entries have distinct colours, and a detected colour left
      off the listing occurs no more often than any listed one. */
  lemma ListingIsTop(detected: seq<Rgb>, h: Histogram, top: Histogram)
    requires h == Tally(detected) && top == MostCommon(h, TopCount)
    ensures DistinctKeys(top)
    ensures forall c, e :: c in detected && e in top && c !in (set x | x in top :: x.color) ==>
      multiset(detected)[c] <= e.count
  {
    forall c, e | c in detected && e in top && c !in (set x | x in top :: x.color)
      ensures multiset(detected)[c] <= e.count
    {
      KeyHasEntry(h, c);
      var i :| 0 <= i < |h| && h[i].color == c;
      EntryCount(h, i);
      assert h[i] !in top;
      var k :| 0 <= k < |top| && top[k] == e;
    }
  }

  /** When fewer than `n` entries are listed, every entry is listed. */
  lemma TopIsWholeHistogram(h: Histogram, top: Histogram)
    requires top == MostCommon(h, TopCount) && |top| < TopCount
    ensures forall e :: e in h <==> e in top
  {
    assert |top| == |h|;
    forall e | e in h
      ensures e in top
    {
      var sub := multiset(h) - multiset(top);
      assert |multiset(top)| == |multiset(h)|;
      assert multiset(top) == multiset(h) by {
        assert |sub| == |multiset(h)| - |multiset(top)|;
      }
      assert e in multiset(top);
    }
  }

  /** Two histograms with the same entries have the same colours. */
  lemma SameEntriesSameColors(h: Histogram, t: Histogram)
    requires forall e :: e in h <==> e in t
    ensures (set e | e in t :: e.color) == (set e | e in h :: e.color)
  {
    var ofT, ofH := set e | e in t :: e.color, set e | e in h :: e.color;
    forall c | c in ofT
      ensures c in ofH
    {
      var e :| e in t && e.color == c;
      assert e in h;
    }
    forall c | c in ofH
      ensures c in ofT
    {
      var e :| e in h && e.color == c;
      assert e in t;
    }
  }

  /** The colours of a histogram's entries are its keys. */
  lemma {:induction false} KeysOfEntries(h: Histogram)
    ensures (set e | e in h :: e.color) == Keys(h)
  {
    if h != [] {
      KeysOfEntries(h[1..]);
      assert h == [h[0]] + h[1..];
      assert (set e | e in h :: e.color) == {h[0].color} + (set e | e in h[1..] :: e.color);
    }
  }

  /** The report of one rule over the colours of a frame: "nothing detected"
      exactly when no colour satisfies the rule; otherwise every listed
      colour satisfies it and is listed with its number of occurrences in
      the whole frame. */
  lemma ReportFollowsRule(rule: Rule, px: seq<Rgb>)
    ensures Summarize(Detect(rule, px)).NothingDetected? <==> forall k :: 0 <= k < |px| ==> !Matches(rule, px[k])
    ensures forall e :: e in Summarize(Detect(rule, px)).Listed() ==>
        e.color in px && Matches(rule, e.color) && e.count == multiset(px)[e.color]
  {
    var d := Detect(rule, px);
    DetectEmpty(rule, px);
    forall e | e in Summarize(d).Listed()
      ensures e.color in px && Matches(rule, e.color) && e.count == multiset(px)[e.color]
    {
      DetectMembership(rule, px, e.color);
      DetectOccurrences(rule, px, e.color);
    }
  }

  /** For the current rule, the red-minus-green and red-minus-blue
      differences printed beside each listed colour both exceed 80. */
  lemma {:induction false} ReportedDifferences(px: seq<Rgb>)
    ensures forall e :: e in Summarize(Detect(Current, px)).Listed() ==>
      e.color.r - e.color.g > 80 && e.color.r - e.color.b > 80
  {
    ReportFollowsRule(Current, px);
  }

  /** The stricter rule never reports more than the current one: if it
      detects anything the current rule does too, with at least as many
      pixels, and each colour it lists has the same count in the current
      rule's histogram. */
  lemma StrictReportWithinCurrent(px: seq<Rgb>)
    ensures Summarize(Detect(Strict, px)).Detected? ==> Summarize(Detect(Current, px)).Detected?
    ensures Summarize(Detect(Strict, px)).Detected? ==>
      Summarize(Detect(Strict, px)).pixelCount <= Summarize(Detect(Current, px)).pixelCount
    ensures forall e :: e in Summarize(Detect(Strict, px)).Listed() ==>
      e.count == CountOf(Tally(Detect(Current, px)), e.color)
  {
    StrictWithinCurrent(px);
    StrictRefinesCurrent();
    forall e | e in Summarize(Detect(Strict, px)).Listed()
      ensures e.count == CountOf(Tally(Detect(Current, px)), e.color)
    {
      ReportFollowsRule(Strict, px);
      DetectOccurrences(Current, px, e.color);
    }
  }

  /** No colour of the flattened frame satisfies the rule exactly when no
      pixel, read as a colour, does. */
  lemma NoneMatchOverPixels(rule: Rule, f: seq<Bgra>)
    ensures (forall k :: 0 <= k < |Colors(f)| ==> !Matches(rule, Colors(f)[k]))
        <==> (forall k :: 0 <= k < |f| ==> !Matches(rule, ToRgb(f[k])))
  {
    assert forall k :: 0 <= k < |f| ==> Colors(f)[k] == ToRgb(f[k]);
  }

  /** What the two reports over one flattened frame say about its pixels. */
  lemma BothReports(f: seq<Bgra>, current: Report, strict: Report)
    requires current == Summarize(Detect(Current, Colors(f)))
    requires strict == Summarize(Detect(Strict, Colors(f)))
    ensures current.NothingDetected? <==> forall k :: 0 <= k < |f| ==> !Matches(Current, ToRgb(f[k]))
    ensures strict.NothingDetected? <==> forall k :: 0 <= k < |f| ==> !Matches(Strict, ToRgb(f[k]))
    ensures current.Detected? ==> current.pixelCount <= |f| && |current.top| <= TopCount
    ensures strict.Detected? ==> current.Detected? && strict.pixelCount <= current.pixelCount
    ensures current.Detected? ==> forall e :: e in current.top ==> Matches(Current, e.color)
    ensures strict.Detected? ==> forall e :: e in strict.top ==> Matches(Strict, e.color)
  {
    ReportFollowsRule(Current, Colors(f));
    ReportFollowsRule(Strict, Colors(f));
    StrictReportWithinCurrent(Colors(f));
    NoneMatchOverPixels(Current, f);
    NoneMatchOverPixels(Strict, f);
  }

  /** The whole analysis of one frame: the current-rule report, then the
      stricter-rule report, each the summary of that rule's detections over
      the frame's colours in scan order. */
  method Analyze(frame: Frame) returns (current: Report, strict: Report)
    ensures current == Summarize(Detect(Current, Colors(Flatten(frame))))
    ensures strict == Summarize(Detect(Strict, Colors(Flatten(frame))))
    ensures current.NothingDetected? <==>
      forall k :: 0 <= k < |Flatten(frame)| ==> !Matches(Current, ToRgb(Flatten(frame)[k]))
    ensures strict.NothingDetected? <==>
      forall k :: 0 <= k < |Flatten(frame)| ==> !Matches(Strict, ToRgb(Flatten(frame)[k]))
    ensures current.Detected? ==> current.pixelCount <= |Flatten(frame)| && |current.top| <= TopCount
    ensures strict.Detected? ==> current.Detected? && strict.pixelCount <= current.pixelCount
    ensures current.Detected? ==> forall e :: e in current.top ==> Matches(Current, e.color)
    ensures strict.Detected? ==> forall e :: e in strict.top ==> Matches(Strict, e.color)
  {
    var currentDetected := Scan(Current, frame);
    current := Summarize(currentDetected);
    var strictDetected := Scan(Strict, frame);
    strict := Summarize(strictDetected);
    BothReports(Flatten(frame), current, strict);
  }
}
