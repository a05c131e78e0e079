/** The colour histogram built from a detected list, and its report of the
    most common entries. A histogram is a sequence of (colour, count)
    entries, one per distinct colour, in order of first occurrence. */
module Counter {
  import opened Pixels

  datatype Entry = Entry(color: Rgb, count: nat)

  type Histogram = seq<Entry>

  /** No colour has two entries. */
  predicate DistinctKeys(h: Histogram) {
    forall i, j :: 0 <= i < j < |h| ==> h[i].color != h[j].color
  }

  /** Every entry counts at least one occurrence. */
  predicate Positive(h: Histogram) {
    forall i :: 0 <= i < |h| ==> h[i].count > 0
  }

  /** The colours that have an entry. */
  function Keys(h: Histogram): set<Rgb> {
    if h == [] then {} else {h[0].color} + Keys(h[1..])
  }

  /** The count recorded for `c`, or 0 when `c` has no entry. */
  function CountOf(h: Histogram, c: Rgb): nat {
    if h == [] then 0 else if h[0].color == c then h[0].count else CountOf(h[1..], c)
  }

  /** The sum of all counts. */
  function Total(h: Histogram): nat {
    if h == [] then 0 else h[0].count + Total(h[1..])
  }

  /** Records one more occurrence of `c`: its entry's count goes up by one,
      or a new entry with count 1 is added at the end. */
  function Bump(h: Histogram, c: Rgb): (h': Histogram)
    ensures Keys(h') == Keys(h) + {c}
    ensures forall d :: CountOf(h', d) == CountOf(h, d) + (if d == c then 1 else 0)
    ensures Total(h') == Total(h) + 1
    ensures DistinctKeys(h) ==> DistinctKeys(h')
    ensures Positive(h) ==> Positive(h')
  {
    if h == [] then [Entry(c, 1)]
    else if h[0].color == c then [Entry(c, h[0].count + 1)] + h[1..]
    else
      var rest := Bump(h[1..], c);
      assert DistinctKeys(h) ==> h[0].color !in Keys(h[1..]) by {
        if DistinctKeys(h) {
          NotAKey(h[1..], h[0].color);
        }
      }
      assert forall i :: 0 <= i < |rest| ==> rest[i].color in Keys(rest) by {
        forall i | 0 <= i < |rest| ensures rest[i].color in Keys(rest) {
          EntryInKeys(rest, i);
        }
      }
      [h[0]] + rest
  }

  /** Every entry's colour is a key. */
  lemma {:induction false} EntryInKeys(h: Histogram, i: nat)
    requires i < |h|
    ensures h[i].color in Keys(h)
  {
    if i > 0 {
      EntryInKeys(h[1..], i - 1);
    }
  }

  /** A colour that no entry carries is not a key. */
  lemma {:induction false} NotAKey(h: Histogram, c: Rgb)
    requires forall i :: 0 <= i < |h| ==> h[i].color != c
    ensures c !in Keys(h)
  {
    if h != [] {
      NotAKey(h[1..], c);
    }
  }

  /** Every key belongs to some entry. */
  lemma {:induction false} KeyHasEntry(h: Histogram, c: Rgb)
    requires c in Keys(h)
    ensures exists i :: 0 <= i < |h| && h[i].color == c
  {
    if h[0].color != c {
      KeyHasEntry(h[1..], c);
      var i :| 0 <= i < |h[1..]| && h[1..][i].color == c;
      assert h[i + 1].color == c;
    }
  }

  /** In a histogram without repeated colours, each entry holds the count
      recorded for its colour. */
  lemma {:induction false} EntryCount(h: Histogram, i: nat)
    requires DistinctKeys(h)
    requires i < |h|
    ensures CountOf(h, h[i].color) == h[i].count
  {
    if i > 0 {
      assert h[0].color != h[i].color;
      EntryCount(h[1..], i - 1);
    }
  }

  /** `Counter(s)`: the histogram of a sequence of colours. Its keys are the
      colours of `s`, each counted as often as it occurs, so the counts add
      up to the length of `s`. */
  function Tally(s: seq<Rgb>): (h: Histogram)
    ensures DistinctKeys(h) && Positive(h)
    ensures Keys(h) == set c | c in s
    ensures forall c :: CountOf(h, c) == multiset(s)[c]
    ensures Total(h) == |s|
  {
    if s == [] then []
    else
      var init, last := s[..|s| - 1], s[|s| - 1];
      assert s == init + [last];
      assert multiset(s) == multiset(init) + multiset{last};
      assert (set c | c in s) == (set c | c in init) + {last};
      Bump(Tally(init), last)
  }

  /** Every entry of `Tally(s)` is a colour of `s` with its exact number of
      occurrences. */
  lemma TallyEntries(s: seq<Rgb>)
    ensures forall e :: e in Tally(s) ==> e.color in s && e.count == multiset(s)[e.color] > 0
  {
    var h := Tally(s);
    forall e | e in h
      ensures e.color in s && e.count == multiset(s)[e.color] > 0
    {
      var i :| 0 <= i < |h| && h[i] == e;
      EntryCount(h, i);
    }
  }

  /** Counts never increase from one entry to the next. */
  predicate NonIncreasing(h: Histogram) {
    forall i, j :: 0 <= i < j < |h| ==> h[i].count >= h[j].count
  }

  /** Places `e` before the first entry whose count it reaches, so entries
      with equal counts keep their relative order. */
  function InsertByCount(e: Entry, h: Histogram): (r: Histogram)
    requires NonIncreasing(h)
    ensures NonIncreasing(r)
    ensures multiset(r) == multiset(h) + multiset{e}
    ensures |r| == |h| + 1
  {
    if h == [] then [e]
    else if e.count >= h[0].count then [e] + h
    else
      var rest := InsertByCount(e, h[1..]);
      assert multiset(h) == multiset{h[0]} + multiset(h[1..]) by {
        assert h == [h[0]] + h[1..];
      }
      assert forall x :: x in rest ==> h[0].count >= x.count by {
        forall x | x in rest ensures h[0].count >= x.count {
          assert x in multiset(rest);
        }
      }
      [h[0]] + rest
  }

  /** Inserting adds exactly the inserted entry's colour to the keys, and
      keeps keys distinct when that colour was not yet a key. */
  lemma {:induction false} InsertKeys(e: Entry, h: Histogram)
    requires NonIncreasing(h)
    ensures Keys(InsertByCount(e, h)) == Keys(h) + {e.color}
    ensures DistinctKeys(h) && e.color !in Keys(h) ==> DistinctKeys(InsertByCount(e, h))
  {
    if h == [] {
    } else if e.count >= h[0].count {
      forall i | 0 <= i < |h| ensures h[i].color in Keys(h) {
        EntryInKeys(h, i);
      }
    } else {
      var rest := InsertByCount(e, h[1..]);
      InsertKeys(e, h[1..]);
      assert InsertByCount(e, h) == [h[0]] + rest;
      if DistinctKeys(h) && e.color !in Keys(h) {
        NotAKey(h[1..], h[0].color);
        forall i | 0 <= i < |rest| ensures rest[i].color in Keys(rest) {
          EntryInKeys(rest, i);
        }
      }
    }
  }

  /** Insertion sort by descending count: a rearrangement of `h`. */
  function SortByCount(h: Histogram): (r: Histogram)
    ensures NonIncreasing(r)
    ensures multiset(r) == multiset(h)
    ensures |r| == |h|
  {
    if h == [] then []
    else
      assert h == [h[0]] + h[1..];
      InsertByCount(h[0], SortByCount(h[1..]))
  }

  /** Sorting keeps the set of keys, and keeps them distinct. */
  lemma {:induction false} SortKeys(h: Histogram)
    ensures Keys(SortByCount(h)) == Keys(h)
    ensures DistinctKeys(h) ==> DistinctKeys(SortByCount(h))
  {
    if h != [] {
      SortKeys(h[1..]);
      InsertKeys(h[0], SortByCount(h[1..]));
      if DistinctKeys(h) {
        NotAKey(h[1..], h[0].color);
      }
    }
  }

  /** `most_common(n)`: the first `n` entries (or all, if fewer) of the
      histogram sorted by descending count. */
  function MostCommon(h: Histogram, n: nat): (top: Histogram)
    ensures |top| == if n < |h| then n else |h|
    ensures NonIncreasing(top)
    ensures multiset(top) <= multiset(h)
    ensures forall e :: e in top ==> e in h
    ensures forall e, k :: e in h && e !in top && 0 <= k < |top| ==> e.count <= top[k].count
    ensures DistinctKeys(h) ==> DistinctKeys(top)
  {
    var sorted := SortByCount(h);
    var m := if n < |sorted| then n else |sorted|;
    SortedPrefix(h, sorted, m);
    assert DistinctKeys(h) ==> DistinctKeys(sorted[..m]) by {
      SortKeys(h);
      assert DistinctKeys(sorted) ==> DistinctKeys(sorted[..m]);
    }
    sorted[..m]
  }

  /** A prefix of a descending rearrangement of `h` holds entries of `h`,
      and every entry it leaves out counts no more than any it keeps. */
  lemma SortedPrefix(h: Histogram, sorted: Histogram, m: nat)
    requires NonIncreasing(sorted) && multiset(sorted) == multiset(h)
    requires m <= |sorted|
    ensures multiset(sorted[..m]) <= multiset(h)
    ensures forall e :: e in sorted[..m] ==> e in h
    ensures forall e, k :: e in h && e !in sorted[..m] && 0 <= k < m ==> e.count <= sorted[k].count
  {
    assert sorted == sorted[..m] + sorted[m..];
    assert multiset(sorted) == multiset(sorted[..m]) + multiset(sorted[m..]);
    forall e | e in sorted[..m]
      ensures e in h
    {
      assert e in multiset(h);
    }
    forall e, k | e in h && e !in sorted[..m] && 0 <= k < m
      ensures e.count <= sorted[k].count
    {
      assert e in multiset(sorted);
      var j :| 0 <= j < |sorted| && sorted[j] == e;
      assert j >= m;
    }
  }
}
