/** Collocation counting around a keyword: the corpus is one list of lower-cased
    tokens, each keyword occurrence gets a window of `w` tokens on either side
    (its concordance, without the occurrence itself), and the contingency
    counts O11, C1, O21, R1 and O12 are built per collocate. */
module Collocation {
  import opened Containers
  import opened Tokenizer

  /* ---------- corpus ---------- */

  /** The documents' tokens, one document after the other (windows may cross
      from one document into the next). */
  function Corpus(sep: set<char>, docs: seq<string>): (r: seq<string>)
    ensures |r| >= |docs|
  {
    if docs == [] then [] else Corpus(sep, docs[..|docs| - 1]) + Tokenize(sep, docs[|docs| - 1])
  }

  /* ---------- keyword positions ---------- */

  /** `[i for i, token in enumerate(tokens) if token == keyword]` */
  function KeywordIndices(tokens: seq<string>, keyword: string): (r: seq<nat>)
    ensures forall k :: 0 <= k < |r| ==> r[k] < |tokens| && tokens[r[k]] == keyword
  {
    if tokens == [] then []
    else
      var init, last := tokens[..|tokens| - 1], tokens[|tokens| - 1];
      KeywordIndices(init, keyword) + (if last == keyword then [|tokens| - 1] else [])
  }

  /** The keyword positions are exactly the indices holding the keyword, in
      increasing order, and there are as many as `tokens.count(keyword)`. */
  lemma KeywordIndicesExact(tokens: seq<string>, keyword: string)
    ensures var r := KeywordIndices(tokens, keyword);
            (forall k :: 0 <= k < |r| ==> r[k] < |tokens| && tokens[r[k]] == keyword) &&
            (forall i :: 0 <= i < |tokens| && tokens[i] == keyword ==> i in r) &&
            (forall a, b :: 0 <= a < b < |r| ==> r[a] < r[b]) &&
            |r| == multiset(tokens)[keyword]
  {
    KeywordIndicesSound(tokens, keyword);
    KeywordIndicesComplete(tokens, keyword);
    KeywordIndicesCount(tokens, keyword);
  }

  /** One more token: its index is added when it is the keyword. */
  lemma KeywordIndicesSnoc(tokens: seq<string>, keyword: string)
    requires tokens != []
    ensures var init := tokens[..|tokens| - 1];
            KeywordIndices(tokens, keyword) ==
              KeywordIndices(init, keyword) + (if tokens[|tokens| - 1] == keyword then [|tokens| - 1] else []) &&
            forall i :: 0 <= i < |init| ==> init[i] == tokens[i]
  {
  }

  lemma {:induction false} KeywordIndicesSound(tokens: seq<string>, keyword: string)
    ensures var r := KeywordIndices(tokens, keyword);
            (forall k :: 0 <= k < |r| ==> r[k] < |tokens| && tokens[r[k]] == keyword) &&
            (forall a, b :: 0 <= a < b < |r| ==> r[a] < r[b])
  {
    if tokens != [] {
      var init := tokens[..|tokens| - 1];
      KeywordIndicesSound(init, keyword);
      KeywordIndicesSnoc(tokens, keyword);
    }
  }

  lemma {:induction false} KeywordIndicesComplete(tokens: seq<string>, keyword: string)
    ensures forall i :: 0 <= i < |tokens| && tokens[i] == keyword ==> i in KeywordIndices(tokens, keyword)
  {
    if tokens != [] {
      var init := tokens[..|tokens| - 1];
      KeywordIndicesComplete(init, keyword);
      KeywordIndicesSnoc(tokens, keyword);
    }
  }

  lemma {:induction false} KeywordIndicesCount(tokens: seq<string>, keyword: string)
    ensures |KeywordIndices(tokens, keyword)| == multiset(tokens)[keyword]
  {
    if tokens != [] {
      var init, last := tokens[..|tokens| - 1], tokens[|tokens| - 1];
      KeywordIndicesCount(init, keyword);
      KeywordIndicesSnoc(tokens, keyword);
      assert multiset(tokens) == multiset(init) + multiset{last} by {
        assert tokens == init + [last];
      }
    }
  }

  /* ---------- windows and anchor removal ---------- */

  /** First position of the window around position `i`. */
  function Lo(i: nat, w: nat): nat {
    if i < w then 0 else i - w
  }

  /** One past the last position of the window (a slice end past the corpus
      stops at the corpus end). */
  function Hi(tokens: seq<string>, i: nat, w: nat): nat {
    if i + w + 1 < |tokens| then i + w + 1 else |tokens|
  }

  /** `tokens[max(0, i - w) : i + w + 1]` */
  function Window(tokens: seq<string>, i: nat, w: nat): (r: seq<string>)
    requires i < |tokens|
    ensures |r| == Hi(tokens, i, w) - Lo(i, w) && i - Lo(i, w) < |r|
    ensures r[i - Lo(i, w)] == tokens[i]
    ensures forall k :: 0 <= k < |r| ==> r[k] == tokens[Lo(i, w) + k]
  {
    tokens[Lo(i, w)..Hi(tokens, i, w)]
  }

  /** `conc.pop(w)` as the script calls it: removes the element at index `w`,
      or raises IndexError when the list has no such element. */
  function PopAt(conc: seq<string>, w: nat): (r: Result<seq<string>>)
    ensures r.Ok? <==> w < |conc|
    ensures r.Ok? ==> |r.value| == |conc| - 1 && multiset(r.value) + multiset{conc[w]} == multiset(conc)
  {
    if w < |conc| then
      assert conc == conc[..w] + [conc[w]] + conc[w + 1..];
      Ok(conc[..w] + conc[w + 1..])
    else Err(IndexError)
  }

  /** The anchor-removal loop as written: every window loses its element at the
      fixed index `w`, in place; the first window shorter than `w + 1` raises
      IndexError, leaving the earlier windows popped and the later untouched. */
  method PopAnchors(concordances: array<seq<string>>, w: nat) returns (r: Result<()>)
    modifies concordances
    ensures r.Ok? <==> forall k :: 0 <= k < concordances.Length ==> w < |old(concordances[k])|
    ensures r.Ok? ==> forall k :: 0 <= k < concordances.Length ==>
              PopAt(old(concordances[k]), w) == Ok(concordances[k])
    ensures r.Err? ==> r.error == IndexError
    ensures r.Err? ==>
              exists f :: 0 <= f < concordances.Length && |old(concordances[f])| <= w &&
                (forall k :: 0 <= k < f ==> PopAt(old(concordances[k]), w) == Ok(concordances[k])) &&
                (forall k :: f <= k < concordances.Length ==> concordances[k] == old(concordances[k]))
  {
    var k := 0;
    while k < concordances.Length
      invariant 0 <= k <= concordances.Length
      invariant forall j :: 0 <= j < k ==>
                  w < |old(concordances[j])| && PopAt(old(concordances[j]), w) == Ok(concordances[j])
      invariant forall j :: k <= j < concordances.Length ==> concordances[j] == old(concordances[j])
    {
      var conc := concordances[k];
      if |conc| <= w {
        return Err(IndexError);
      }
      concordances[k] := conc[..w] + conc[w + 1..];
      k := k + 1;
    }
    return Ok(());
  }

  /** The concordance of the keyword occurrence at `i`: its window with the
      occurrence itself removed, taken at its real place `min(w, i)` in the
      window. Every other token of the window, other keyword occurrences
      included, stays. */
  function Concordance(tokens: seq<string>, i: nat, w: nat): (r: seq<string>)
    requires i < |tokens|
    ensures r == tokens[Lo(i, w)..i] + tokens[i + 1..Hi(tokens, i, w)]
  {
    var win := Window(tokens, i, w);
    var anchor := if i < w then i else w;
    assert win[anchor] == tokens[i];
    assert win[..anchor] == tokens[Lo(i, w)..i];
    assert win[anchor + 1..] == tokens[i + 1..Hi(tokens, i, w)];
    win[..anchor] + win[anchor + 1..]
  }

  /** The concordances of the occurrences at positions `pos`, in that order. */
  function ConcordancesAt(tokens: seq<string>, pos: seq<nat>, w: nat): (r: seq<seq<string>>)
    requires forall k :: 0 <= k < |pos| ==> pos[k] < |tokens|
    ensures |r| == |pos|
  {
    seq(|pos|, k requires 0 <= k < |pos| => Concordance(tokens, pos[k], w))
  }

  /** One concordance per keyword occurrence, in corpus order. */
  function Concordances(tokens: seq<string>, keyword: string, w: nat): (r: seq<seq<string>>)
    ensures |r| == multiset(tokens)[keyword]
  {
    KeywordIndicesExact(tokens, keyword);
    ConcordancesAt(tokens, KeywordIndices(tokens, keyword), w)
  }

  /** Away from the corpus start (`i >= w`) the fixed-index pop removes exactly
      the keyword occurrence. */
  lemma PopAtFarFromStart(tokens: seq<string>, i: nat, w: nat)
    requires i < |tokens| && w <= i
    ensures PopAt(Window(tokens, i, w), w) == Ok(Concordance(tokens, i, w))
  {
    var win := Window(tokens, i, w);
    assert win[..w] == tokens[i - w..i];
    assert win[w + 1..] == tokens[i + 1..Hi(tokens, i, w)];
  }

  /** The fixed-index pop raises IndexError exactly when the whole corpus has
      at most `w` tokens. */
  lemma PopFailsIffShortCorpus(tokens: seq<string>, i: nat, w: nat)
    requires i < |tokens|
    ensures PopAt(Window(tokens, i, w), w).Err? <==> |tokens| <= w
  {
  }

  /** Near the corpus start (`i < w`) the window starts at the corpus start, so
      the fixed-index pop keeps the keyword occurrence and drops `tokens[w]`. */
  lemma PopNearStart(tokens: seq<string>, i: nat, w: nat)
    requires i < w < |tokens|
    ensures PopAt(Window(tokens, i, w), w) == Ok(tokens[..w] + tokens[w + 1..Hi(tokens, i, w)])
    ensures tokens[i] in PopAt(Window(tokens, i, w), w).value
  {
    var win := Window(tokens, i, w);
    assert win == tokens[0..Hi(tokens, i, w)];
    assert win[..w] == tokens[..w];
    assert win[w + 1..] == tokens[w + 1..Hi(tokens, i, w)];
    assert (tokens[..w] + tokens[w + 1..Hi(tokens, i, w)])[i] == tokens[i];
  }

  /** Near the corpus start the fixed-index pop keeps the keyword and drops a
      real context token: "cat the sat" with window 1 leaves ["cat"] instead
      of ["the"]. */
  lemma PopRemovesWrongToken()
    ensures var tokens := ["cat", "the", "sat"];
            PopAt(Window(tokens, 0, 1), 1) == Ok(["cat"]) && Concordance(tokens, 0, 1) == ["the"]
  {
    var tokens := ["cat", "the", "sat"];
    var win := Window(tokens, 0, 1);
    assert win == tokens[0..2] == ["cat", "the"];
    assert win[..1] + win[2..] == ["cat"];
    assert Concordance(tokens, 0, 1) == tokens[0..0] + tokens[1..2];
    assert tokens[1..2] == ["the"];
  }

  /** With window size 0 every concordance is empty, under either removal. */
  lemma ZeroWindow(tokens: seq<string>, i: nat)
    requires i < |tokens|
    ensures Concordance(tokens, i, 0) == []
    ensures PopAt(Window(tokens, i, 0), 0) == Ok([])
  {
  }

  /* ---------- contingency counts ---------- */

  /** `calc_O11`: for every collocate, its number of positions over all
      concordances; keys in order of first appearance. */
  method CalcO11(concordances: seq<seq<string>>) returns (o11: Dict<string, int>)
    ensures o11 == Tally(Flatten(concordances))
    ensures o11.Valid() && o11.keys == Dedup(Flatten(concordances))
    ensures forall c :: c in o11.vals <==> c in Flatten(concordances)
    ensures forall c :: c in o11.vals ==> o11.vals[c] == multiset(Flatten(concordances))[c]
    ensures SumOver(o11.keys, o11.vals) == TotalLength(concordances)
  {
    o11 := Empty();
    var i := 0;
    while i < |concordances|
      invariant 0 <= i <= |concordances|
      invariant o11 == Tally(Flatten(concordances[..i]))
    {
      var conc := concordances[i];
      var j := 0;
      ReadingStep(concordances, i, 0);
      while j < |conc|
        invariant 0 <= j <= |conc|
        invariant o11 == Tally(Flatten(concordances[..i]) + conc[..j])
      {
        var collocate := conc[j];
        ReadingStep(concordances, i, j + 1);
        TallySnoc(Flatten(concordances[..i]) + conc[..j], collocate);
        if collocate in o11.vals {
          o11 := o11.Put(collocate, o11.vals[collocate] + 1);
        } else {
          o11 := o11.Put(collocate, 1);
        }
        j := j + 1;
      }
      ReadingStep(concordances, i, |conc|);
      i := i + 1;
    }
    ReadingDone(concordances);
    TallyCounts(Flatten(concordances));
    TallySum(Flatten(concordances));
    FlattenLength(concordances);
  }

  /** The positions read so far by the nested loops over the concordances:
      all of the first `i` concordances, then `j` positions of the next. */
  lemma ReadingStep(concordances: seq<seq<string>>, i: nat, j: nat)
    requires i < |concordances| && j <= |concordances[i]|
    ensures j == 0 ==> Flatten(concordances[..i]) + concordances[i][..j] == Flatten(concordances[..i])
    ensures 0 < j ==> Flatten(concordances[..i]) + concordances[i][..j] ==
                      Flatten(concordances[..i]) + concordances[i][..j - 1] + [concordances[i][j - 1]]
    ensures j == |concordances[i]| ==> Flatten(concordances[..i]) + concordances[i][..j] == Flatten(concordances[..i + 1])
  {
    assert concordances[..i + 1] == concordances[..i] + [concordances[i]];
    FlattenSnoc(concordances[..i], concordances[i]);
    assert concordances[i][..|concordances[i]|] == concordances[i];
    if 0 < j {
      assert concordances[i][..j] == concordances[i][..j - 1] + [concordances[i][j - 1]];
    }
  }

  lemma ReadingDone(concordances: seq<seq<string>>)
    ensures Flatten(concordances[..|concordances|]) == Flatten(concordances)
  {
    assert concordances[..|concordances|] == concordances;
  }

  /** What `calc_O21_C1` knows after reading the collocates in `seen`. */
  ghost predicate O21C1Done(seen: seq<string>, allTokens: seq<string>, o11: Dict<string, int>,
                            o21: Dict<string, int>, c1: Dict<string, int>)
  {
    O21C1Keys(seen, o21, c1) && O21C1Vals(allTokens, o11, o21, c1)
  }

  /** Both dictionaries are keyed by the collocates read, in first-read order. */
  ghost predicate O21C1Keys(seen: seq<string>, o21: Dict<string, int>, c1: Dict<string, int>)
  {
    c1.Valid() && o21.Valid() && c1.keys == Dedup(seen) && o21.keys == c1.keys
  }

  /** C1 holds corpus counts and O21 = C1 - O11. */
  ghost predicate O21C1Vals(allTokens: seq<string>, o11: Dict<string, int>, o21: Dict<string, int>, c1: Dict<string, int>)
  {
    (forall c :: c in c1.vals ==> c1.vals[c] == multiset(allTokens)[c]) &&
    (forall c :: c in o21.vals ==> c in o11.vals && c in c1.vals && o21.vals[c] + o11.vals[c] == c1.vals[c])
  }

  /** Assigning a key keeps the dictionary's keys those of the collocates read. */
  lemma PutKeepsDedup(seen: seq<string>, x: string, d: Dict<string, int>, v: int)
    requires d.Valid() && d.keys == Dedup(seen)
    ensures d.Put(x, v).Valid() && d.Put(x, v).keys == Dedup(seen + [x])
  {
    DedupSnoc(seen, x);
    DedupProperties(seen);
  }

  /** `calc_O21_C1`: for every collocate, C1 is its count in the whole corpus and
      O21 = C1 - O11; both keyed exactly like O11. */
  method CalcO21C1(concordances: seq<seq<string>>, allTokens: seq<string>, o11: Dict<string, int>)
    returns (o21: Dict<string, int>, c1: Dict<string, int>)
    requires forall c :: c in Flatten(concordances) ==> c in o11.vals
    ensures c1.Valid() && o21.Valid()
    ensures c1.keys == Dedup(Flatten(concordances)) && o21.keys == c1.keys
    ensures forall c :: c in c1.vals ==> c1.vals[c] == multiset(allTokens)[c]
    ensures forall c :: c in o21.vals ==> c in o11.vals && c in c1.vals && o21.vals[c] + o11.vals[c] == c1.vals[c]
  {
    o21, c1 := Empty(), Empty();
    ghost var seen: seq<string> := [];
    var i := 0;
    while i < |concordances|
      invariant 0 <= i <= |concordances|
      invariant seen == Flatten(concordances[..i])
      invariant O21C1Done(seen, allTokens, o11, o21, c1)
    {
      var conc := concordances[i];
      var j := 0;
      ReadingStep(concordances, i, 0);
      while j < |conc|
        invariant 0 <= j <= |conc|
        invariant seen == Flatten(concordances[..i]) + conc[..j]
        invariant O21C1Done(seen, allTokens, o11, o21, c1)
      {
        var collocate := conc[j];
        ReadingStep(concordances, i, j + 1);
        FlattenContains(concordances, i, collocate);
        var totalCount := multiset(allTokens)[collocate];
        O21C1Step(seen, collocate, totalCount, allTokens, o11, o21, c1);
        c1 := c1.Put(collocate, totalCount);
        o21 := o21.Put(collocate, totalCount - o11.vals[collocate]);
        seen := seen + [collocate];
        j := j + 1;
      }
      ReadingStep(concordances, i, |conc|);
      i := i + 1;
    }
    ReadingDone(concordances);
  }

  /** One iteration of the inner loop of `calc_O21_C1` keeps its invariant. */
  lemma O21C1Step(seen: seq<string>, collocate: string, total: int, allTokens: seq<string>, o11: Dict<string, int>,
                  o21: Dict<string, int>, c1: Dict<string, int>)
    requires O21C1Done(seen, allTokens, o11, o21, c1) && collocate in o11.vals
    requires total == multiset(allTokens)[collocate]
    ensures O21C1Done(seen + [collocate], allTokens, o11,
                      o21.Put(collocate, total - o11.vals[collocate]), c1.Put(collocate, total))
  {
    O21C1KeysStep(seen, collocate, o21, c1, total - o11.vals[collocate], total);
    O21C1ValsStep(collocate, total, allTokens, o11, o21, c1);
  }

  lemma O21C1KeysStep(seen: seq<string>, collocate: string, o21: Dict<string, int>, c1: Dict<string, int>,
                      v21: int, v1: int)
    requires O21C1Keys(seen, o21, c1)
    ensures O21C1Keys(seen + [collocate], o21.Put(collocate, v21), c1.Put(collocate, v1))
  {
    PutKeepsDedup(seen, collocate, c1, v1);
    PutKeepsDedup(seen, collocate, o21, v21);
  }

  lemma O21C1ValsStep(collocate: string, total: int, allTokens: seq<string>, o11: Dict<string, int>,
                      o21: Dict<string, int>, c1: Dict<string, int>)
    requires O21C1Vals(allTokens, o11, o21, c1) && collocate in o11.vals && total == multiset(allTokens)[collocate]
    ensures O21C1Vals(allTokens, o11, o21.Put(collocate, total - o11.vals[collocate]), c1.Put(collocate, total))
  {
    var c1', o21' := c1.Put(collocate, total), o21.Put(collocate, total - o11.vals[collocate]);
    assert c1'.vals == c1.vals[collocate := total];
    assert o21'.vals == o21.vals[collocate := total - o11.vals[collocate]];
  }

  /** `calc_kwcount_O12`: R1 is the keyword's count in the corpus and, for every
      key of O11 in the same order, O12 = R1 - O11. */
  method CalcKwcountO12(allTokens: seq<string>, keyword: string, o11: Dict<string, int>)
    returns (r1: int, o12: Dict<string, int>)
    requires o11.Valid()
    ensures r1 == multiset(allTokens)[keyword]
    ensures o12.Valid() && o12.keys == o11.keys
    ensures forall c :: c in o12.vals ==> c in o11.vals && o12.vals[c] + o11.vals[c] == r1
  {
    r1 := multiset(allTokens)[keyword];
    o12 := Empty();
    var i := 0;
    while i < |o11.keys|
      invariant 0 <= i <= |o11.keys|
      invariant o12.Valid() && o12.keys == o11.keys[..i]
      invariant forall c :: c in o12.vals ==> c in o11.vals && o12.vals[c] + o11.vals[c] == r1
    {
      var collocate := o11.keys[i];
      KeysStep(o11, i);
      PutFresh(o12, collocate, r1 - o11.vals[collocate]);
      o12 := o12.Put(collocate, r1 - o11.vals[collocate]);
      i := i + 1;
    }
    assert o11.keys[..i] == o11.keys;
  }

  /** Iterating over a dictionary's keys meets each key once. */
  lemma KeysStep(d: Dict<string, int>, i: nat)
    requires d.Valid() && i < |d.keys|
    ensures d.keys[i] !in d.keys[..i] && d.keys[..i + 1] == d.keys[..i] + [d.keys[i]]
  {
  }

  /* ---------- properties of the counts ---------- */

  /** With window size 0 no token is collocated with the keyword at all. */
  lemma {:induction false} ZeroWindowNoCollocates(tokens: seq<string>, pos: seq<nat>)
    requires forall k :: 0 <= k < |pos| ==> pos[k] < |tokens|
    ensures Flatten(ConcordancesAt(tokens, pos, 0)) == []
  {
    if pos != [] {
      var init := pos[..|pos| - 1];
      ZeroWindowNoCollocates(tokens, init);
      assert ConcordancesAt(tokens, pos, 0)[..|pos| - 1] == ConcordancesAt(tokens, init, 0);
      ZeroWindow(tokens, pos[|pos| - 1]);
    }
  }

  /** O21 = C1 - O11 is not a count of anything when windows overlap: in
      "a kw x kw" with window 1 the script's windows `[a, kw, x]` and `[x, kw]`
      lose their element at index 1 and become `[a, x]` and `[x]`, the same
      as the concordances; so O11 of x is 2 while x occurs once, and O21 is -1. */
  lemma O21CanBeNegative(a: string, kw: string, x: string)
    requires a != kw && x != kw && a != x
    ensures PopAt(Window([a, kw, x, kw], 1, 1), 1) == Ok([a, x])
    ensures PopAt(Window([a, kw, x, kw], 3, 1), 1) == Ok([x])
    ensures Concordances([a, kw, x, kw], kw, 1) == [[a, x], [x]]
    ensures multiset([a, kw, x, kw])[x] == 1
    ensures multiset(Flatten(Concordances([a, kw, x, kw], kw, 1)))[x] == 2
  {
    ExamplePops(a, kw, x);
    ExampleConcordances(a, kw, x);
    ExampleCounts(a, kw, x);
  }

  /** x occurs once in "a kw x kw" and twice in its concordances. */
  lemma ExampleCounts(a: string, kw: string, x: string)
    requires a != x && x != kw
    ensures multiset([a, kw, x, kw])[x] == 1
    ensures multiset(Flatten([[a, x], [x]]))[x] == 2
  {
    var concs := [[a, x], [x]];
    assert Flatten(concs) == [a, x, x] by {
      assert concs[..1] == [[a, x]];
      assert concs[..1][..0] == [];
      assert Flatten(concs[..1]) == [a, x];
    }
  }

  /** The script's windows of "a kw x kw" with window 1, after `pop(1)`. */
  lemma ExamplePops(a: string, kw: string, x: string)
    ensures PopAt(Window([a, kw, x, kw], 1, 1), 1) == Ok([a, x])
    ensures PopAt(Window([a, kw, x, kw], 3, 1), 1) == Ok([x])
  {
    var tokens := [a, kw, x, kw];
    assert Window(tokens, 1, 1) == [a, kw, x];
    assert [a, kw, x][..1] + [a, kw, x][2..] == [a, x];
    assert Window(tokens, 3, 1) == [x, kw];
    assert [x, kw][..1] + [x, kw][2..] == [x];
  }

  /** The concordances of "a kw x kw" with window 1. */
  lemma ExampleConcordances(a: string, kw: string, x: string)
    requires a != kw && x != kw
    ensures Concordances([a, kw, x, kw], kw, 1) == [[a, x], [x]]
  {
    var tokens := [a, kw, x, kw];
    ExampleKeywordIndices(a, kw, x);
    assert Concordance(tokens, 1, 1) == tokens[0..1] + tokens[2..3] == [a, x];
    assert Concordance(tokens, 3, 1) == tokens[2..3] + tokens[4..4] == [x];
  }

  /** The keyword positions of "a kw x kw". */
  lemma ExampleKeywordIndices(a: string, kw: string, x: string)
    requires a != kw && x != kw
    ensures KeywordIndices([a, kw, x, kw], kw) == [1, 3]
  {
    var tokens := [a, kw, x, kw];
    assert tokens[..3][..2] == tokens[..2] == [a, kw];
    assert tokens[..2][..1] == [a];
    assert [a][..0] == [];
    assert KeywordIndices([a], kw) == [];
    assert KeywordIndices(tokens[..2], kw) == [1];
    assert KeywordIndices(tokens[..3], kw) == [1];
  }

  /** Keyword occurrences more than `2 * w` positions apart: no two windows
      share a position. */
  ghost predicate Spread(pos: seq<nat>, w: nat) {
    forall a :: 0 <= a < |pos| - 1 ==> pos[a] + 2 * w < pos[a + 1]
  }

  lemma MultisetPrefix(s: seq<string>, a: nat, b: nat)
    requires a <= b <= |s|
    ensures multiset(s[..a]) <= multiset(s[..b])
    ensures multiset(s[..b]) == multiset(s[..a]) + multiset(s[a..b])
  {
    assert s[..b] == s[..a] + s[a..b];
  }

  /** A concordance holds no more of any token than its window's span. */
  lemma ConcordanceInSpan(tokens: seq<string>, i: nat, w: nat)
    requires i < |tokens|
    ensures multiset(Concordance(tokens, i, w)) <= multiset(tokens[Lo(i, w)..Hi(tokens, i, w)])
  {
    var lo, hi := Lo(i, w), Hi(tokens, i, w);
    assert tokens[lo..hi] == tokens[lo..i] + [tokens[i]] + tokens[i + 1..hi];
  }

  /** Over spread-out occurrences, the concordances up to the `k`-th take their
      tokens from disjoint stretches of the corpus before that window's end. */
  lemma {:induction false} SpreadPrefixBound(tokens: seq<string>, pos: seq<nat>, w: nat, k: nat)
    requires forall j :: 0 <= j < |pos| ==> pos[j] < |tokens|
    requires Spread(pos, w) && 1 <= k <= |pos|
    ensures multiset(Flatten(ConcordancesAt(tokens, pos, w)[..k])) <= multiset(tokens[..Hi(tokens, pos[k - 1], w)])
  {
    var concs := ConcordancesAt(tokens, pos, w);
    var i := pos[k - 1];
    var lo, hi := Lo(i, w), Hi(tokens, i, w);
    assert concs[..k] == concs[..k - 1] + [concs[k - 1]];
    FlattenSnoc(concs[..k - 1], concs[k - 1]);
    ConcordanceInSpan(tokens, i, w);
    MultisetPrefix(tokens, lo, hi);
    if k == 1 {
      assert concs[..0] == [];
    } else {
      SpreadPrefixBound(tokens, pos, w, k - 1);
      var prevHi := Hi(tokens, pos[k - 2], w);
      assert prevHi <= lo;
      MultisetPrefix(tokens, prevHi, lo);
    }
  }

  /** When no two windows overlap, O11 never exceeds C1, so O21 = C1 - O11 is a
      count of occurrences outside every window and is not negative. */
  lemma SpreadWindowsBound(tokens: seq<string>, pos: seq<nat>, w: nat)
    requires forall j :: 0 <= j < |pos| ==> pos[j] < |tokens|
    requires Spread(pos, w)
    ensures multiset(Flatten(ConcordancesAt(tokens, pos, w))) <= multiset(tokens)
  {
    var concs := ConcordancesAt(tokens, pos, w);
    if pos != [] {
      SpreadPrefixBound(tokens, pos, w, |pos|);
      assert concs[..|pos|] == concs;
      MultisetPrefix(tokens, Hi(tokens, pos[|pos| - 1], w), |tokens|);
      assert tokens[..|tokens|] == tokens;
    }
  }

  /* ---------- the counting part of `main` ---------- */

  /** The reading loop of `main`: `tokens += tokenize(content)` for each
      document in turn. */
  method ReadCorpus(sep: set<char>, docs: seq<string>) returns (raw: seq<string>)
    ensures raw == Corpus(sep, docs)
    ensures |raw| >= |docs|
  {
    raw := [];
    var d := 0;
    while d < |docs|
      invariant 0 <= d <= |docs|
      invariant raw == Corpus(sep, docs[..d]) && |raw| >= d
    {
      assert docs[..d + 1][..d] == docs[..d];
      raw := raw + Tokenize(sep, docs[d]);
      d := d + 1;
    }
    assert docs[..d] == docs;
  }

  /** The contingency counts of one run. */
  datatype Counts = Counts(n: nat, r1: int, concordances: seq<seq<string>>,
                           o11: Dict<string, int>, o21: Dict<string, int>,
                           c1: Dict<string, int>, o12: Dict<string, int>)

  /** What the counts mean: N is the corpus size, R1 the keyword's count;
      O11, O21, C1 and O12 share one key list, each collocate once in order of
      first appearance in the concordances, with O11 its count there, C1 its
      count in the corpus, O21 = C1 - O11 and O12 = R1 - O11. */
  ghost predicate Contingency(tokens: seq<string>, keyword: string, concordances: seq<seq<string>>, counts: Counts) {
    counts.n == |tokens| && counts.concordances == concordances &&
    counts.r1 == multiset(tokens)[keyword] &&
    counts.o11.Valid() && counts.o21.Valid() && counts.c1.Valid() && counts.o12.Valid() &&
    counts.o11.keys == Dedup(Flatten(concordances)) &&
    counts.o21.keys == counts.o11.keys && counts.c1.keys == counts.o11.keys && counts.o12.keys == counts.o11.keys &&
    (forall c :: c in counts.o11.vals ==>
       counts.o11.vals[c] == multiset(Flatten(concordances))[c] &&
       counts.c1.vals[c] == multiset(tokens)[c] &&
       counts.o11.vals[c] + counts.o21.vals[c] == counts.c1.vals[c] &&
       counts.o11.vals[c] + counts.o12.vals[c] == counts.r1) &&
    SumOver(counts.o11.keys, counts.o11.vals) == TotalLength(concordances)
  }

  /** Lines 108-131 of `main` on the lower-cased corpus: the keyword positions
      are searched with `search` (the keyword lower-cased once more) and R1
      counts `keyword`. */
  method CountCollocates(tokens: seq<string>, keyword: string, search: string, w: nat) returns (counts: Counts)
    ensures Contingency(tokens, keyword, Concordances(tokens, search, w), counts)
    ensures search == keyword ==> counts.r1 == |counts.concordances|
    ensures w == 0 ==> counts.o11.keys == []
    ensures Spread(KeywordIndices(tokens, search), w) ==>
              forall c :: c in counts.o21.vals ==> counts.o21.vals[c] >= 0
  {
    var concordances := Concordances(tokens, search, w);
    var o11 := CalcO11(concordances);
    var o21, c1 := CalcO21C1(concordances, tokens, o11);
    var r1, o12 := CalcKwcountO12(tokens, keyword, o11);
    counts := Counts(|tokens|, r1, concordances, o11, o21, c1, o12);
    KeywordIndicesExact(tokens, search);
    if w == 0 {
      ZeroWindowNoCollocates(tokens, KeywordIndices(tokens, search));
    }
    if Spread(KeywordIndices(tokens, search), w) {
      SpreadWindowsBound(tokens, KeywordIndices(tokens, search), w);
    }
  }

  /** Lines 86-131 of `main`, with the documents' contents given in reading
      order and `lower` standing for `str.lower`: lower-case the keyword and
      every token, then count around the keyword's occurrences. */
  method CollocationCounts(sep: set<char>, lower: string -> string, docs: seq<string>, keyword: string, w: nat)
    returns (tokens: seq<string>, counts: Counts)
    ensures |tokens| == |Corpus(sep, docs)|
    ensures forall k :: 0 <= k < |tokens| ==> tokens[k] == lower(Corpus(sep, docs)[k])
    ensures Contingency(tokens, lower(keyword), Concordances(tokens, lower(lower(keyword)), w), counts)
    ensures lower(lower(keyword)) == lower(keyword) ==> counts.r1 == |counts.concordances|
    ensures w == 0 ==> counts.o11.keys == []
    ensures Spread(KeywordIndices(tokens, lower(lower(keyword))), w) ==>
              forall c :: c in counts.o21.vals ==> counts.o21.vals[c] >= 0
  {
    var kw := lower(keyword);
    var raw := ReadCorpus(sep, docs);
    tokens := seq(|raw|, k requires 0 <= k < |raw| => lower(raw[k]));
    counts := CountCollocates(tokens, kw, lower(kw), w);
  }
}
