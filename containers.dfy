/** The built-in containers the scripts lean on, as values: an insertion-ordered
    dictionary (a Python `dict`), counting (`collections.Counter`, `list.count`),
    first-occurrence order, flattening, and the exceptions a script can raise. */
module Containers {

  /** The exceptions the modelled code can raise; any of them ends the script. */
  datatype Error = IndexError

  datatype Result<T> = Ok(value: T) | Err(error: Error)

  /** A dictionary that remembers insertion order, as Python's `dict` does:
      `keys` lists every key once, in the order it was first inserted. */
  datatype Dict<K(==, !new), V> = Dict(keys: seq<K>, vals: map<K, V>)
  {
    ghost predicate Valid() {
      (forall i, j :: 0 <= i < j < |keys| ==> keys[i] != keys[j]) &&
      (forall k :: k in vals <==> k in keys)
    }

    /** `d[k] = v`: a new key goes to the end, an existing key keeps its place. */
    function Put(k: K, v: V): (d: Dict<K, V>)
      ensures Valid() ==> d.Valid()
      ensures d.vals == vals[k := v]
    {
      if k in vals then Dict(keys, vals[k := v]) else Dict(keys + [k], vals[k := v])
    }

    /** `list(d.values())` */
    function Values(): (r: seq<V>)
      requires Valid()
      ensures |r| == |keys|
      ensures forall i :: 0 <= i < |keys| ==> r[i] == vals[keys[i]]
    {
      seq(|keys|, i requires 0 <= i < |keys| => vals[keys[i]])
    }
  }

  lemma PutFresh<K(!new), V>(d: Dict<K, V>, k: K, v: V)
    requires d.Valid() && k !in d.keys
    ensures d.Put(k, v).Valid() && d.Put(k, v).keys == d.keys + [k]
  {
  }

  function Empty<K(==, !new), V>(): (d: Dict<K, V>)
    ensures d.Valid() && d.keys == []
  {
    Dict([], map[])
  }

  /** The elements of `xs` without repetitions, each where it first occurs. */
  function Dedup<K(==, !new)>(xs: seq<K>): seq<K>
  {
    if xs == [] then []
    else
      var init, x := xs[..|xs| - 1], xs[|xs| - 1];
      if x in init then Dedup(init) else Dedup(init) + [x]
  }

  lemma {:induction false} DedupProperties<K(!new)>(xs: seq<K>)
    ensures forall x :: x in Dedup(xs) <==> x in xs
    ensures forall i, j :: 0 <= i < j < |Dedup(xs)| ==> Dedup(xs)[i] != Dedup(xs)[j]
  {
    if xs != [] {
      var init := xs[..|xs| - 1];
      DedupProperties(init);
      assert xs == init + [xs[|xs| - 1]];
    }
  }

  lemma DedupSnoc<K(!new)>(xs: seq<K>, x: K)
    ensures Dedup(xs + [x]) == if x in xs then Dedup(xs) else Dedup(xs) + [x]
  {
    assert (xs + [x])[..|xs|] == xs;
  }

  /** Counting each element's occurrences into a dictionary, the way
      `collections.Counter(xs)` and the `d[x] += 1 / d[x] = 1` loops do. */
  function Tally<K(==, !new)>(xs: seq<K>): Dict<K, int>
  {
    if xs == [] then Empty()
    else
      var d, x := Tally(xs[..|xs| - 1]), xs[|xs| - 1];
      d.Put(x, if x in d.vals then d.vals[x] + 1 else 1)
  }

  /** One step of the counting loop. */
  lemma TallySnoc<K(!new)>(xs: seq<K>, x: K)
    ensures Tally(xs + [x]) == Tally(xs).Put(x, if x in Tally(xs).vals then Tally(xs).vals[x] + 1 else 1)
  {
    assert (xs + [x])[..|xs|] == xs;
  }

  /** The counter holds every distinct element once, in first-occurrence order,
      and maps it to its number of occurrences. */
  lemma {:induction false} TallyCounts<K(!new)>(xs: seq<K>)
    ensures Tally(xs).Valid()
    ensures Tally(xs).keys == Dedup(xs)
    ensures forall x :: x in Tally(xs).vals <==> x in xs
    ensures forall x :: x in Tally(xs).vals ==> Tally(xs).vals[x] == multiset(xs)[x]
  {
    if xs != [] {
      var init, x := xs[..|xs| - 1], xs[|xs| - 1];
      TallyCounts(init);
      DedupProperties(init);
      assert xs == init + [x];
      assert multiset(xs) == multiset(init) + multiset{x};
    }
  }

  /** Sum of the dictionary's values, taken over a list of its keys. */
  function SumOver<K(==, !new)>(ks: seq<K>, vals: map<K, int>): int
    requires forall k :: k in ks ==> k in vals
  {
    if ks == [] then 0 else SumOver(ks[..|ks| - 1], vals) + vals[ks[|ks| - 1]]
  }

  lemma {:induction false} SumOverUpdate<K(!new)>(ks: seq<K>, vals: map<K, int>, k: K, v: int)
    requires forall x :: x in ks ==> x in vals
    requires forall i, j :: 0 <= i < j < |ks| ==> ks[i] != ks[j]
    ensures SumOver(ks, vals[k := v]) == SumOver(ks, vals) + (if k in ks then v - vals[k] else 0)
  {
    if ks != [] {
      var init := ks[..|ks| - 1];
      SumOverUpdate(init, vals, k, v);
      assert k == ks[|ks| - 1] ==> k !in init;
    }
  }

  lemma {:induction false} SumOverFresh<K(!new)>(ks: seq<K>, vals: map<K, int>, k: K, v: int)
    requires forall x :: x in ks ==> x in vals
    requires k !in ks
    ensures SumOver(ks, vals[k := v]) == SumOver(ks, vals)
  {
    if ks != [] {
      SumOverFresh(ks[..|ks| - 1], vals, k, v);
    }
  }

  /** The counts add up to the number of elements counted. */
  lemma {:induction false} TallySum<K(!new)>(xs: seq<K>)
    ensures Tally(xs).Valid()
    ensures SumOver(Tally(xs).keys, Tally(xs).vals) == |xs|
  {
    TallyCounts(xs);
    if xs != [] {
      var init, x := xs[..|xs| - 1], xs[|xs| - 1];
      var d := Tally(init);
      TallySum(init);
      TallyCounts(init);
      var v := if x in d.vals then d.vals[x] + 1 else 1;
      assert Tally(xs) == d.Put(x, v);
      if x in d.vals {
        assert Tally(xs).keys == d.keys;
        SumOverUpdate(d.keys, d.vals, x, v);
      } else {
        SumOverFresh(d.keys, d.vals, x, v);
        var ks := d.keys + [x];
        assert Tally(xs).keys == ks;
        assert ks[..|ks| - 1] == d.keys;
        assert SumOver(ks, d.vals[x := v]) == SumOver(d.keys, d.vals[x := v]) + v;
      }
    }
  }

  /** The concatenation of a list of lists (`sum(xss, [])`). */
  function Flatten<T>(xss: seq<seq<T>>): seq<T>
  {
    if xss == [] then [] else Flatten(xss[..|xss| - 1]) + xss[|xss| - 1]
  }

  lemma FlattenSnoc<T>(xss: seq<seq<T>>, xs: seq<T>)
    ensures Flatten(xss + [xs]) == Flatten(xss) + xs
  {
    assert (xss + [xs])[..|xss|] == xss;
  }

  lemma {:induction false} FlattenContains<T>(xss: seq<seq<T>>, i: nat, x: T)
    requires i < |xss| && x in xss[i]
    ensures x in Flatten(xss)
  {
    if i < |xss| - 1 {
      FlattenContains(xss[..|xss| - 1], i, x);
    }
  }

  /** Sum of the lengths of the parts. */
  function TotalLength<T>(xss: seq<seq<T>>): nat
  {
    if xss == [] then 0 else TotalLength(xss[..|xss| - 1]) + |xss[|xss| - 1]|
  }

  lemma {:induction false} FlattenLength<T>(xss: seq<seq<T>>)
    ensures |Flatten(xss)| == TotalLength(xss)
  {
    if xss != [] {
      FlattenLength(xss[..|xss| - 1]);
    }
  }

  /** The dictionary built by assigning `d[k] = v` for each pair in turn. */
  function FromPairs<K(==, !new), V>(ps: seq<(K, V)>): Dict<K, V>
  {
    if ps == [] then Empty() else FromPairs(ps[..|ps| - 1]).Put(ps[|ps| - 1].0, ps[|ps| - 1].1)
  }

  function KeysOf<K(==, !new), V>(ps: seq<(K, V)>): (r: seq<K>)
    ensures |r| == |ps| && forall i :: 0 <= i < |ps| ==> r[i] == ps[i].0
  {
    seq(|ps|, i requires 0 <= i < |ps| => ps[i].0)
  }

  /** One entry per distinct key, in first-insertion order, and a key that is
      assigned again keeps the value of its last assignment. */
  lemma {:induction false} FromPairsLastWins<K(!new), V>(ps: seq<(K, V)>)
    ensures FromPairs(ps).Valid()
    ensures FromPairs(ps).keys == Dedup(KeysOf(ps))
    ensures forall k :: k in FromPairs(ps).vals <==> k in KeysOf(ps)
    ensures forall p :: 0 <= p < |ps| && (forall q :: p < q < |ps| ==> ps[q].0 != ps[p].0) ==>
              FromPairs(ps).vals[ps[p].0] == ps[p].1
  {
    if ps != [] {
      var init := ps[..|ps| - 1];
      FromPairsLastWins(init);
      DedupProperties(KeysOf(init));
      assert KeysOf(ps) == KeysOf(init) + [ps[|ps| - 1].0];
      assert KeysOf(ps)[..|ps| - 1] == KeysOf(init);
      forall p | 0 <= p < |ps| && (forall q :: p < q < |ps| ==> ps[q].0 != ps[p].0)
        ensures FromPairs(ps).vals[ps[p].0] == ps[p].1
      {
        if p < |ps| - 1 {
          assert init[p] == ps[p];
          assert forall q :: p < q < |init| ==> init[q].0 != init[p].0 by {
            forall q | p < q < |init| ensures init[q].0 != init[p].0 {
              assert init[q] == ps[q];
            }
          }
        }
      }
    }
  }
}
