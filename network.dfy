/** The person co-occurrence network: every pair of person mentions within one
    text becomes an edge between the two names in ascending order, identical
    edges are counted into weights, and only edges heavier than a minimum
    weight are kept. */
module Network {
  import opened Containers

  /** An edge between two person names, `(nodeA, nodeB)`. */
  type Edge = (string, string)

  /** An edge with its weight, `(nodeA, nodeB, weight)`. */
  type WeightedEdge = (string, string, int)

  /* ---------- Python's string order ---------- */

  /** `a < b` on Python strings: the first differing code point decides, and a
      proper prefix comes first. */
  predicate Less(a: string, b: string)
  {
    b != [] && (a == [] || a[0] < b[0] || (a[0] == b[0] && Less(a[1..], b[1..])))
  }

  lemma {:induction false} LessIrreflexive(a: string)
    ensures !Less(a, a)
  {
    if a != [] {
      LessIrreflexive(a[1..]);
    }
  }

  lemma {:induction false} LessAsymmetric(a: string, b: string)
    requires Less(a, b)
    ensures !Less(b, a)
  {
    if a != [] && a[0] == b[0] {
      LessAsymmetric(a[1..], b[1..]);
    }
  }

  /** Any two different strings are ordered one way or the other. */
  lemma {:induction false} LessTotal(a: string, b: string)
    ensures a == b || Less(a, b) || Less(b, a)
  {
    if a != [] && b != [] && a[0] == b[0] {
      LessTotal(a[1..], b[1..]);
      assert a == [a[0]] + a[1..] && b == [b[0]] + b[1..];
    }
  }

  lemma {:induction false} LessTransitive(a: string, b: string, c: string)
    requires Less(a, b) && Less(b, c)
    ensures Less(a, c)
  {
    if a != [] && a[0] == b[0] && b[0] == c[0] {
      LessTransitive(a[1..], b[1..], c[1..]);
    }
  }

  /* ---------- sorted pairs ---------- */

  /** `tuple(sorted(edge))` for a pair: the sort is stable, so the pair stays as
      it is unless its second name is the smaller. */
  function SortedPair(a: string, b: string): Edge
  {
    if Less(b, a) then (b, a) else (a, b)
  }

  /** The sorted pair holds the same two names, in ascending order, and does
      not depend on the order the names came in. */
  lemma SortedPairOrdered(a: string, b: string)
    ensures SortedPair(a, b) == (a, b) || SortedPair(a, b) == (b, a)
    ensures multiset{SortedPair(a, b).0, SortedPair(a, b).1} == multiset{a, b}
    ensures SortedPair(a, b).0 == SortedPair(a, b).1 || Less(SortedPair(a, b).0, SortedPair(a, b).1)
    ensures SortedPair(a, b) == SortedPair(b, a)
  {
    LessTotal(a, b);
    if Less(b, a) {
      LessAsymmetric(b, a);
    }
  }

  /* ---------- combinations ---------- */

  /** Row `i` of `combinations(range(k), 2)`: `(i, i + 1)` up to `(i, k - 1)`. */
  function Row(i: nat, k: nat): (r: seq<(nat, nat)>)
    ensures |r| == if i < k then k - i - 1 else 0
  {
    var n := if i < k then k - i - 1 else 0;
    seq(n, t requires 0 <= t < n => (i, i + 1 + t))
  }

  /** The index pairs of `combinations(range(k), 2)` from row `i` on, in the
      order `itertools` emits them. */
  function PairsFrom(i: nat, k: nat): seq<(nat, nat)>
    decreases k - i
  {
    if i >= k then [] else Row(i, k) + PairsFrom(i + 1, k)
  }

  /** All index pairs of `combinations(range(k), 2)`. */
  function IndexPairs(k: nat): seq<(nat, nat)>
  {
    PairsFrom(0, k)
  }

  /** Lexicographic order on index pairs. */
  predicate PairBefore(p: (nat, nat), q: (nat, nat))
  {
    p.0 < q.0 || (p.0 == q.0 && p.1 < q.1)
  }

  /** From row `i` on, the pairs are exactly those `(a, b)` with
      `i <= a < b < k`, strictly increasing, and there are
      `(k - i) * (k - i - 1) / 2` of them. */
  lemma {:induction false} PairsFromExact(i: nat, k: nat)
    requires i <= k
    ensures forall p :: p in PairsFrom(i, k) <==> i <= p.0 < p.1 < k
    ensures forall a, b :: 0 <= a < b < |PairsFrom(i, k)| ==> PairBefore(PairsFrom(i, k)[a], PairsFrom(i, k)[b])
    ensures 2 * |PairsFrom(i, k)| == (k - i) * (k - i - 1)
    decreases k - i
  {
    if i < k {
      PairsFromExact(i + 1, k);
      var row, rest := Row(i, k), PairsFrom(i + 1, k);
      assert PairsFrom(i, k) == row + rest;
      forall p: (nat, nat) | i <= p.0 < p.1 < k && p.0 == i
        ensures p in row
      {
        assert row[p.1 - i - 1] == p;
      }
      assert 2 * |rest| == (k - i - 1) * (k - i - 2);
      assert (k - i) * (k - i - 1) == 2 * (k - i - 1) + (k - i - 1) * (k - i - 2);
    }
  }

  /** Every text with `k` mentions yields `k * (k - 1) / 2` pairs `i < j`, each
      exactly once, in lexicographic order. */
  lemma IndexPairsExact(k: nat)
    ensures forall p :: p in IndexPairs(k) <==> p.0 < p.1 < k
    ensures forall a, b :: 0 <= a < b < |IndexPairs(k)| ==> PairBefore(IndexPairs(k)[a], IndexPairs(k)[b])
    ensures 2 * |IndexPairs(k)| == k * (k - 1)
  {
    PairsFromExact(0, k);
  }

  /** `list(combinations(names, 2))`: the names at every index pair, in order;
      a name mentioned twice pairs with itself. */
  function Combinations(names: seq<string>): (r: seq<Edge>)
    ensures |r| == |IndexPairs(|names|)|
    ensures forall t :: 0 <= t < |r| ==>
              IndexPairs(|names|)[t].0 < IndexPairs(|names|)[t].1 < |names| &&
              r[t] == (names[IndexPairs(|names|)[t].0], names[IndexPairs(|names|)[t].1])
  {
    var ps := IndexPairs(|names|);
    IndexPairsExact(|names|);
    seq(|ps|, t requires 0 <= t < |ps| => (names[ps[t].0], names[ps[t].1]))
  }

  /** The edges of one text: every combination, sorted. */
  function TextEdges(names: seq<string>): (r: seq<Edge>)
    ensures |r| == |Combinations(names)|
    ensures forall t :: 0 <= t < |r| ==> r[t] == SortedPair(Combinations(names)[t].0, Combinations(names)[t].1)
  {
    var c := Combinations(names);
    seq(|c|, t requires 0 <= t < |c| => SortedPair(c[t].0, c[t].1))
  }

  /** The edge list of all texts, text by text. */
  function AllEdges(texts: seq<seq<string>>): seq<Edge>
  {
    if texts == [] then [] else AllEdges(texts[..|texts| - 1]) + TextEdges(texts[|texts| - 1])
  }

  /** A text's edge list has one edge per position pair `i < j`, in
      lexicographic order of the pairs, each the two names in ascending order. */
  lemma TextEdgesExact(names: seq<string>)
    ensures 2 * |TextEdges(names)| == |names| * (|names| - 1)
    ensures forall t :: 0 <= t < |TextEdges(names)| ==>
              var p := IndexPairs(|names|)[t];
              p.0 < p.1 < |names| && TextEdges(names)[t] == SortedPair(names[p.0], names[p.1])
    ensures forall i, j :: 0 <= i < j < |names| ==> SortedPair(names[i], names[j]) in TextEdges(names)
  {
    IndexPairsExact(|names|);
    var ps := IndexPairs(|names|);
    forall i, j | 0 <= i < j < |names|
      ensures SortedPair(names[i], names[j]) in TextEdges(names)
    {
      assert (i, j) in ps;
      var t :| 0 <= t < |ps| && ps[t] == (i, j);
      assert TextEdges(names)[t] == SortedPair(names[i], names[j]);
    }
  }

  /** Every edge in the list has its names in ascending order. */
  lemma {:induction false} AllEdgesOrdered(texts: seq<seq<string>>)
    ensures forall e :: e in AllEdges(texts) ==> e.0 == e.1 || Less(e.0, e.1)
  {
    if texts != [] {
      AllEdgesOrdered(texts[..|texts| - 1]);
      var last := TextEdges(texts[|texts| - 1]);
      forall e | e in last
        ensures e.0 == e.1 || Less(e.0, e.1)
      {
        var t :| 0 <= t < |last| && last[t] == e;
        var c := Combinations(texts[|texts| - 1]);
        SortedPairOrdered(c[t].0, c[t].1);
      }
    }
  }

  /** Number of pairs over all texts. */
  function PairCount(texts: seq<seq<string>>): nat
  {
    if texts == [] then 0 else PairCount(texts[..|texts| - 1]) + |texts[|texts| - 1]| * (|texts[|texts| - 1]| - 1) / 2
  }

  /** The edge list has `k * (k - 1) / 2` edges for every text of `k` mentions. */
  lemma {:induction false} AllEdgesLength(texts: seq<seq<string>>)
    ensures |AllEdges(texts)| == PairCount(texts)
  {
    if texts != [] {
      AllEdgesLength(texts[..|texts| - 1]);
      TextEdgesExact(texts[|texts| - 1]);
    }
  }

  /** Lines 44-53: the edge list built by appending, for every text, each of
      its combinations sorted. */
  method EdgeList(texts: seq<seq<string>>) returns (edgelist: seq<Edge>)
    ensures edgelist == AllEdges(texts)
  {
    edgelist := [];
    var i := 0;
    while i < |texts|
      invariant 0 <= i <= |texts|
      invariant edgelist == AllEdges(texts[..i])
    {
      var edges := Combinations(texts[i]);
      var j := 0;
      while j < |edges|
        invariant 0 <= j <= |edges|
        invariant edgelist == AllEdges(texts[..i]) + TextEdges(texts[i])[..j]
      {
        var edge := edges[j];
        EdgeStep(texts[i], j);
        edgelist := edgelist + [SortedPair(edge.0, edge.1)];
        j := j + 1;
      }
      assert TextEdges(texts[i])[..j] == TextEdges(texts[i]);
      assert texts[..i + 1][..i] == texts[..i];
      i := i + 1;
    }
    assert texts[..i] == texts;
  }

  lemma EdgeStep(names: seq<string>, j: nat)
    requires j < |Combinations(names)|
    ensures TextEdges(names)[..j + 1] ==
            TextEdges(names)[..j] + [SortedPair(Combinations(names)[j].0, Combinations(names)[j].1)]
  {
  }

  /* ---------- the edge file ---------- */

  /** The header row written before the edges. */
  const Header: Edge := ("nodeA", "nodeB")

  /** Lines 72-73: `edgelist[0]` raises IndexError on an empty list; a first
      row equal to the header is dropped. At most the first row goes. */
  function StripHeader(rows: seq<Edge>): (r: Result<seq<Edge>>)
    ensures r.Err? <==> rows == []
    ensures r.Ok? ==> |rows| - 1 <= |r.value| <= |rows| && r.value == rows[|rows| - |r.value|..]
  {
    if rows == [] then Err(IndexError)
    else if rows[0] == Header then Ok(rows[1..])
    else Ok(rows)
  }

  /** Reading back the edge file (header row, then the edges) and stripping the
      header gives back exactly the edges, even when the first edge looks like
      the header. */
  lemma HeaderRoundTrip(edges: seq<Edge>)
    ensures StripHeader([Header] + edges) == Ok(edges)
  {
    assert ([Header] + edges)[1..] == edges;
  }

  /** Without a header the rows stay as they are. */
  lemma NoHeaderUnchanged(rows: seq<Edge>)
    requires rows != [] && rows[0] != Header
    ensures StripHeader(rows) == Ok(rows)
  {
  }

  /* ---------- weights ---------- */

  /** The items of a dictionary of edge counts, as `(nodeA, nodeB, weight)`. */
  function Items(d: Dict<Edge, int>): (r: seq<WeightedEdge>)
    requires forall k :: k in d.keys ==> k in d.vals
    ensures |r| == |d.keys|
  {
    seq(|d.keys|, t requires 0 <= t < |d.keys| => (d.keys[t].0, d.keys[t].1, d.vals[d.keys[t]]))
  }

  /** The items of `Counter(edgelist)`. */
  function Weighted(edgelist: seq<Edge>): (r: seq<WeightedEdge>)
    ensures |r| == |Tally(edgelist).keys|
  {
    TallyCounts(edgelist);
    Items(Tally(edgelist))
  }

  /** Sum of the weights. */
  function TotalWeight(ws: seq<WeightedEdge>): int
  {
    if ws == [] then 0 else TotalWeight(ws[..|ws| - 1]) + ws[|ws| - 1].2
  }

  /** Lines 78-84: one row per item of the counter, in the counter's order. */
  method WeightEdges(edgelist: seq<Edge>) returns (weighted: seq<WeightedEdge>)
    ensures weighted == Weighted(edgelist)
    ensures TotalWeight(weighted) == |edgelist|
  {
    var counter := Tally(edgelist);
    TallyCounts(edgelist);
    TallySum(edgelist);
    weighted := [];
    var i := 0;
    while i < |counter.keys|
      invariant 0 <= i <= |counter.keys|
      invariant weighted == Items(counter)[..i]
      invariant TotalWeight(weighted) == SumOver(counter.keys[..i], counter.vals)
    {
      var key := counter.keys[i];
      var value := counter.vals[key];
      ItemsStep(counter, i);
      weighted := weighted + [(key.0, key.1, value)];
      i := i + 1;
    }
    assert counter.keys[..i] == counter.keys;
    assert Items(counter)[..i] == Items(counter);
  }

  /** One iteration of the loop over the dictionary's items. */
  lemma ItemsStep(d: Dict<Edge, int>, i: nat)
    requires forall k :: k in d.keys ==> k in d.vals
    requires i < |d.keys|
    ensures var row := (d.keys[i].0, d.keys[i].1, d.vals[d.keys[i]]);
            Items(d)[..i + 1] == Items(d)[..i] + [row] &&
            TotalWeight(Items(d)[..i] + [row]) == TotalWeight(Items(d)[..i]) + row.2 &&
            SumOver(d.keys[..i + 1], d.vals) == SumOver(d.keys[..i], d.vals) + row.2
  {
    var row := (d.keys[i].0, d.keys[i].1, d.vals[d.keys[i]]);
    assert (Items(d)[..i] + [row])[..i] == Items(d)[..i];
    assert d.keys[..i + 1][..i] == d.keys[..i];
  }

  /** Each distinct edge appears once, in order of first appearance, weighted
      by its number of occurrences; every weight is at least 1. */
  lemma WeightedExact(edgelist: seq<Edge>)
    ensures |Weighted(edgelist)| == |Dedup(edgelist)|
    ensures forall t :: 0 <= t < |Weighted(edgelist)| ==>
              var w := Weighted(edgelist)[t];
              (w.0, w.1) == Dedup(edgelist)[t] && w.2 == multiset(edgelist)[(w.0, w.1)] && w.2 >= 1
    ensures forall a, b :: 0 <= a < b < |Weighted(edgelist)| ==>
              (Weighted(edgelist)[a].0, Weighted(edgelist)[a].1) != (Weighted(edgelist)[b].0, Weighted(edgelist)[b].1)
    ensures forall e :: e in edgelist <==> exists t :: 0 <= t < |Weighted(edgelist)| && (Weighted(edgelist)[t].0, Weighted(edgelist)[t].1) == e
  {
    TallyCounts(edgelist);
    DedupProperties(edgelist);
    var d := Dedup(edgelist);
    forall e | e in edgelist
      ensures exists t :: 0 <= t < |Weighted(edgelist)| && (Weighted(edgelist)[t].0, Weighted(edgelist)[t].1) == e
    {
      var t :| 0 <= t < |d| && d[t] == e;
      assert (Weighted(edgelist)[t].0, Weighted(edgelist)[t].1) == e;
    }
  }

  /* ---------- the weight filter ---------- */

  /** Line 90: the rows whose weight is strictly greater than `minWeight`. */
  function FilterByWeight(ws: seq<WeightedEdge>, minWeight: int): (r: seq<WeightedEdge>)
    ensures |r| <= |ws|
    ensures forall k :: 0 <= k < |r| ==> r[k].2 > minWeight
  {
    if ws == [] then []
    else
      var last := ws[|ws| - 1];
      FilterByWeight(ws[..|ws| - 1], minWeight) + (if last.2 > minWeight then [last] else [])
  }

  /** The filter keeps exactly the rows whose weight is above the minimum. */
  lemma FilterSelects(ws: seq<WeightedEdge>, minWeight: int)
    ensures forall x :: x in FilterByWeight(ws, minWeight) <==> x in ws && x.2 > minWeight
  {
    FilterCounts(ws, minWeight);
  }

  /** `r` is `s` with some elements left out, the rest in their order. */
  predicate IsSubsequence<T(==)>(r: seq<T>, s: seq<T>)
  {
    if r == [] then true
    else if s == [] then false
    else if r[|r| - 1] == s[|s| - 1] then IsSubsequence(r[..|r| - 1], s[..|s| - 1])
    else IsSubsequence(r, s[..|s| - 1])
  }

  /** The filter keeps the rows in their original relative order. */
  lemma {:induction false} FilterKeepsOrder(ws: seq<WeightedEdge>, minWeight: int)
    ensures IsSubsequence(FilterByWeight(ws, minWeight), ws)
  {
    if ws != [] {
      var init, last := ws[..|ws| - 1], ws[|ws| - 1];
      FilterKeepsOrder(init, minWeight);
      var r := FilterByWeight(ws, minWeight);
      if last.2 > minWeight {
        assert r[..|r| - 1] == FilterByWeight(init, minWeight);
      } else if r != [] {
        assert r == FilterByWeight(init, minWeight);
        FilterSelects(init, minWeight);
        assert r[|r| - 1] in r;
        assert r[|r| - 1] != last;
      }
    }
  }

  /** A row's multiplicity is kept when its weight passes and is zero otherwise. */
  lemma {:induction false} FilterCounts(ws: seq<WeightedEdge>, minWeight: int)
    ensures forall x :: multiset(FilterByWeight(ws, minWeight))[x] == if x.2 > minWeight then multiset(ws)[x] else 0
  {
    if ws != [] {
      var init, last := ws[..|ws| - 1], ws[|ws| - 1];
      FilterCounts(init, minWeight);
      assert ws == init + [last];
    }
  }

  /** When every weight passes, nothing is dropped; in particular the default
      minimum weight 0 keeps every counted edge. */
  lemma {:induction false} FilterKeepsAll(ws: seq<WeightedEdge>, minWeight: int)
    requires forall t :: 0 <= t < |ws| ==> ws[t].2 > minWeight
    ensures FilterByWeight(ws, minWeight) == ws
  {
    if ws != [] {
      var init := ws[..|ws| - 1];
      assert forall t :: 0 <= t < |init| ==> init[t] == ws[t];
      FilterKeepsAll(init, minWeight);
      assert ws == init + [ws[|ws| - 1]];
    }
  }

  /* ---------- lines 44-90 of `main` ---------- */

  /** From the persons of every text to the weight-filtered edges. The edge
      file written at lines 55-64 and read back at lines 67-69 holds the header
      row followed by the edges. */
  method WeightedNetwork(texts: seq<seq<string>>, minWeight: int) returns (r: Result<seq<WeightedEdge>>)
    ensures r == Ok(FilterByWeight(Weighted(AllEdges(texts)), minWeight))
    ensures minWeight <= 0 ==> r == Ok(Weighted(AllEdges(texts)))
  {
    var edgelist := EdgeList(texts);
    var rows := [Header] + edgelist;
    HeaderRoundTrip(edgelist);
    var stripped := StripHeader(rows);
    var weighted := WeightEdges(stripped.value);
    r := Ok(FilterByWeight(weighted, minWeight));
    if minWeight <= 0 {
      WeightedExact(edgelist);
      FilterKeepsAll(weighted, minWeight);
    }
  }
}
