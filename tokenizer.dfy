/** `tokenize`: `re.split(r"\W+", text)`. The regex class `\W` ("not a word
    character") is a parameter, the set `sep` of separator characters, so
    everything here holds whatever Unicode table the regex engine uses; the
    same split with the whitespace characters as `sep` underlies `str.split()`. */
module Tokenizer {

  predicate IsWord(sep: set<char>, c: char) {
    c !in sep
  }

  /** Length of the longest prefix of `s` whose characters all have
      `IsWord(sep, c) == want`. */
  function Run(sep: set<char>, s: string, want: bool): (n: nat)
    ensures n <= |s|
    ensures n < |s| ==> IsWord(sep, s[n]) != want
  {
    if s == [] || IsWord(sep, s[0]) != want then 0 else 1 + Run(sep, s[1..], want)
  }

  /** The run is made of characters of the wanted kind. */
  lemma {:induction false} RunIsUniform(sep: set<char>, s: string, want: bool)
    ensures forall k :: 0 <= k < Run(sep, s, want) ==> IsWord(sep, s[k]) == want
  {
    if s != [] && IsWord(sep, s[0]) == want {
      RunIsUniform(sep, s[1..], want);
    }
  }

  /** The pieces between maximal runs of non-word characters, `re.split(r"\W+", s)`:
      a leading word run, then (if anything is left) a separator run and the rest. */
  function Tokenize(sep: set<char>, s: string): (r: seq<string>)
    ensures |r| >= 1
    decreases |s|
  {
    var n := Run(sep, s, true);
    if n == |s| then [s]
    else
      var m := Run(sep, s[n..], false);
      [s[..n]] + Tokenize(sep, s[n + m..])
  }

  /** The maximal runs of non-word characters that `Tokenize` splits on. */
  function Separators(sep: set<char>, s: string): (r: seq<string>)
    decreases |s|
  {
    var n := Run(sep, s, true);
    if n == |s| then []
    else
      var m := Run(sep, s[n..], false);
      [s[n..n + m]] + Separators(sep, s[n + m..])
  }

  /** `ts[0] + seps[0] + ts[1] + ... + seps[k-1] + ts[k]` */
  function Interleave(ts: seq<string>, seps: seq<string>): string
    requires |ts| == |seps| + 1
  {
    if seps == [] then ts[0] else ts[0] + seps[0] + Interleave(ts[1..], seps[1..])
  }

  ghost predicate AllWord(sep: set<char>, t: string) {
    forall k :: 0 <= k < |t| ==> IsWord(sep, t[k])
  }

  ghost predicate AllSeparator(sep: set<char>, t: string) {
    forall k :: 0 <= k < |t| ==> !IsWord(sep, t[k])
  }

  /** `s` is cut into tokens `ts` by separator runs `seps`: the pieces give back
      `s`, tokens hold only word characters, separators are non-empty runs of
      non-word characters, and no token strictly inside is empty (so two
      separators are never adjacent: each separator is a maximal run). */
  ghost predicate IsSplit(sep: set<char>, s: string, ts: seq<string>, seps: seq<string>) {
    |ts| == |seps| + 1 &&
    Interleave(ts, seps) == s &&
    (forall i :: 0 <= i < |ts| ==> AllWord(sep, ts[i])) &&
    (forall i :: 0 <= i < |seps| ==> seps[i] != [] && AllSeparator(sep, seps[i])) &&
    (forall i :: 0 < i < |ts| - 1 ==> ts[i] != [])
  }

  /** One step of the split: the leading word run `s[..n]`, then the
      separator run `s[n..n + m]`. */
  lemma Unfold(sep: set<char>, s: string, n: nat, m: nat)
    requires n == Run(sep, s, true) && n < |s|
    requires m == Run(sep, s[n..], false)
    ensures 1 <= m && n + m <= |s|
    ensures Tokenize(sep, s) == [s[..n]] + Tokenize(sep, s[n + m..])
    ensures Separators(sep, s) == [s[n..n + m]] + Separators(sep, s[n + m..])
  {
    assert s[n..][0] == s[n];
  }

  /** The first token is a word run and the first separator a non-empty
      separator run. */
  lemma UnfoldRuns(sep: set<char>, s: string, n: nat, m: nat)
    requires n == Run(sep, s, true) && n < |s|
    requires m == Run(sep, s[n..], false)
    ensures n + m <= |s| && AllWord(sep, s[..n]) && s[n..n + m] != [] && AllSeparator(sep, s[n..n + m])
  {
    assert s[n..][0] == s[n];
    assert 1 <= m && n + m <= |s|;
    RunIsUniform(sep, s, true);
    forall k | 0 <= k < n
      ensures IsWord(sep, s[..n][k])
    {
      assert s[..n][k] == s[k];
    }
    RunIsUniform(sep, s[n..], false);
    var run := s[n..n + m];
    forall k | 0 <= k < m
      ensures !IsWord(sep, run[k])
    {
      assert run[k] == s[n..][k];
    }
  }

  /** Tokens and separators put back together give the input. */
  lemma {:induction false} RoundTrip(sep: set<char>, s: string)
    ensures |Tokenize(sep, s)| == |Separators(sep, s)| + 1
    ensures Interleave(Tokenize(sep, s), Separators(sep, s)) == s
    decreases |s|
  {
    var n := Run(sep, s, true);
    if n < |s| {
      var m := Run(sep, s[n..], false);
      var rest := s[n + m..];
      var ts, seps := Tokenize(sep, rest), Separators(sep, rest);
      assert Tokenize(sep, s) == [s[..n]] + ts && Separators(sep, s) == [s[n..n + m]] + seps by {
        Unfold(sep, s, n, m);
      }
      assert |ts| == |seps| + 1 && Interleave(ts, seps) == rest by {
        RoundTrip(sep, rest);
      }
      InterleaveCons(s[..n], s[n..n + m], ts, seps);
      SliceJoin(s, n, n + m);
    }
  }

  lemma SliceJoin(s: string, a: nat, b: nat)
    requires a <= b <= |s|
    ensures s[..a] + s[a..b] + s[b..] == s
  {
  }

  lemma InterleaveCons(t: string, sep: string, ts: seq<string>, seps: seq<string>)
    requires |ts| == |seps| + 1
    ensures Interleave([t] + ts, [sep] + seps) == t + sep + Interleave(ts, seps)
  {
    assert ([t] + ts)[1..] == ts;
    assert ([sep] + seps)[1..] == seps;
  }

  /** Every token holds only word characters; every separator is a non-empty
      run of non-word characters. */
  lemma PiecesAreRuns(sep: set<char>, s: string)
    ensures forall i :: 0 <= i < |Tokenize(sep, s)| ==> AllWord(sep, Tokenize(sep, s)[i])
    ensures forall i :: 0 <= i < |Separators(sep, s)| ==>
              Separators(sep, s)[i] != [] && AllSeparator(sep, Separators(sep, s)[i])
  {
    TokensAreWords(sep, s);
    SeparatorsAreRuns(sep, s);
  }

  lemma {:induction false} TokensAreWords(sep: set<char>, s: string)
    ensures forall i :: 0 <= i < |Tokenize(sep, s)| ==> AllWord(sep, Tokenize(sep, s)[i])
    decreases |s|
  {
    if Run(sep, s, true) < |s| {
      var k, t0, first := Step(sep, s);
      TokensAreWords(sep, s[k..]);
      ConsAllWord(sep, t0, Tokenize(sep, s[k..]));
    } else {
      WholeWord(sep, s);
    }
  }

  lemma ConsAllWord(sep: set<char>, t0: string, ts: seq<string>)
    requires AllWord(sep, t0)
    requires forall i :: 0 <= i < |ts| ==> AllWord(sep, ts[i])
    ensures forall i :: 0 <= i < |[t0] + ts| ==> AllWord(sep, ([t0] + ts)[i])
  {
    forall i | 0 < i < |[t0] + ts|
      ensures AllWord(sep, ([t0] + ts)[i])
    {
      assert ([t0] + ts)[i] == ts[i - 1];
    }
  }

  /** A text without separator characters is its own single token. */
  lemma WholeWord(sep: set<char>, s: string)
    requires Run(sep, s, true) == |s|
    ensures Tokenize(sep, s) == [s] && AllWord(sep, s)
  {
    RunIsUniform(sep, s, true);
  }

  lemma {:induction false} SeparatorsAreRuns(sep: set<char>, s: string)
    ensures forall i :: 0 <= i < |Separators(sep, s)| ==>
              Separators(sep, s)[i] != [] && AllSeparator(sep, Separators(sep, s)[i])
    decreases |s|
  {
    if Run(sep, s, true) < |s| {
      var k, t0, first := Step(sep, s);
      var seps := Separators(sep, s[k..]);
      SeparatorsAreRuns(sep, s[k..]);
      forall i | 0 <= i < |Separators(sep, s)|
        ensures Separators(sep, s)[i] != [] && AllSeparator(sep, Separators(sep, s)[i])
      {
        if i > 0 {
          assert Separators(sep, s)[i] == seps[i - 1];
        }
      }
    }
  }

  /** One step of the split, with the runs it cuts off named. */
  lemma Step(sep: set<char>, s: string) returns (k: nat, t0: string, first: string)
    requires Run(sep, s, true) < |s|
    ensures 0 < k <= |s| && AllWord(sep, t0) && first != [] && AllSeparator(sep, first)
    ensures Tokenize(sep, s) == [t0] + Tokenize(sep, s[k..])
    ensures Separators(sep, s) == [first] + Separators(sep, s[k..])
  {
    var n := Run(sep, s, true);
    var m := Run(sep, s[n..], false);
    Unfold(sep, s, n, m);
    UnfoldRuns(sep, s, n, m);
    k, t0, first := n + m, s[..n], s[n..n + m];
  }

  /** A text that does not start with a separator has a non-empty first token. */
  lemma FirstTokenNonEmpty(sep: set<char>, s: string)
    requires s != [] && IsWord(sep, s[0])
    ensures Tokenize(sep, s)[0] != []
  {
  }

  /** Only the first and the last token can be empty. */
  lemma {:induction false} InnerTokensNonEmpty(sep: set<char>, s: string)
    ensures forall i :: 0 < i < |Tokenize(sep, s)| - 1 ==> Tokenize(sep, s)[i] != []
    decreases |s|
  {
    var n := Run(sep, s, true);
    if n < |s| {
      var m := Run(sep, s[n..], false);
      var rest := s[n + m..];
      var ts := Tokenize(sep, rest);
      assert Tokenize(sep, s) == [s[..n]] + ts by {
        Unfold(sep, s, n, m);
      }
      InnerTokensNonEmpty(sep, rest);
      if rest != [] {
        assert IsWord(sep, rest[0]) by {
          Unfold(sep, s, n, m);
          assert rest[0] == s[n..][m];
        }
        FirstTokenNonEmpty(sep, rest);
      }
    }
  }

  /** Tokens and separators put back together give the input, tokens hold no
      non-word character, and each separator is a maximal non-word run; hence
      there is one more token than there are separator runs. */
  lemma TokenizeSplits(sep: set<char>, s: string)
    ensures IsSplit(sep, s, Tokenize(sep, s), Separators(sep, s))
  {
    RoundTrip(sep, s);
    PiecesAreRuns(sep, s);
    InnerTokensNonEmpty(sep, s);
  }

  /** `Run` over a prefix of separator characters that is followed by a word
      character (or by nothing) is exactly that prefix. */
  lemma {:induction false} RunOfSeparatorPrefix(sep: set<char>, p: string, q: string)
    requires p != [] && AllSeparator(sep, p)
    requires q == [] || IsWord(sep, q[0])
    ensures Run(sep, p + q, false) == |p|
  {
    if |p| > 1 {
      RunOfSeparatorPrefix(sep, p[1..], q);
      assert (p + q)[1..] == p[1..] + q;
    } else {
      assert (p + q)[1..] == q;
    }
  }

  /** `Run` over a word prefix that is followed by a separator (or by nothing). */
  lemma {:induction false} RunOfWordPrefix(sep: set<char>, p: string, q: string)
    requires AllWord(sep, p)
    requires q == [] || !IsWord(sep, q[0])
    ensures Run(sep, p + q, true) == |p|
  {
    if p != [] {
      RunOfWordPrefix(sep, p[1..], q);
      assert (p + q)[1..] == p[1..] + q;
    } else {
      assert p + q == q;
    }
  }

  /** The split of a text that begins with a known token and separator run. */
  lemma UnfoldAt(sep: set<char>, t0: string, first: string, tail: string)
    requires AllWord(sep, t0)
    requires first != [] && AllSeparator(sep, first)
    requires tail == [] || IsWord(sep, tail[0])
    ensures Tokenize(sep, t0 + first + tail) == [t0] + Tokenize(sep, tail)
    ensures Separators(sep, t0 + first + tail) == [first] + Separators(sep, tail)
  {
    var s := t0 + first + tail;
    assert s == t0 + (first + tail);
    assert (first + tail)[0] == first[0];
    RunOfWordPrefix(sep, t0, first + tail);
    var n := |t0|;
    assert s[n..] == first + tail;
    RunOfSeparatorPrefix(sep, first, tail);
    var m := |first|;
    Unfold(sep, s, n, m);
    assert s[..n] == t0;
    assert s[n..n + m] == first;
    assert s[n + m..] == tail;
  }

  /** A word followed by nothing or by a separator character is the first
      token, whatever comes after it. */
  lemma WordThenRest(sep: set<char>, b: string, rest: string) returns (more: seq<string>)
    requires AllWord(sep, b)
    requires rest == [] || !IsWord(sep, rest[0])
    ensures Tokenize(sep, b + rest) == [b] + more
  {
    if rest == [] {
      assert b + rest == b;
      OneToken(sep, b);
      more := [];
    } else {
      var m := Run(sep, rest, false);
      RunIsUniform(sep, rest, false);
      assert rest == rest[..m] + rest[m..];
      assert b + rest == b + rest[..m] + rest[m..];
      UnfoldAt(sep, b, rest[..m], rest[m..]);
      more := Tokenize(sep, rest[m..]);
    }
  }

  /** The split of a word, separators, a second word and a rest that is empty
      or starts with a separator begins with the two words. */
  lemma TwoWordsThenRest(sep: set<char>, a: string, gap: string, b: string, rest: string)
    returns (more: seq<string>)
    requires b != "" && gap != ""
    requires AllSeparator(sep, gap) && AllWord(sep, a) && AllWord(sep, b)
    requires rest == [] || !IsWord(sep, rest[0])
    ensures Tokenize(sep, a + gap + b + rest) == [a, b] + more
  {
    more := WordThenRest(sep, b, rest);
    assert (b + rest)[0] == b[0];
    UnfoldAt(sep, a, gap, b + rest);
    RegroupLast(a, gap, b, rest);
  }

  /** Leading separators before a word character add one empty first token. */
  lemma LeadingSeparators(sep: set<char>, lead: string, tail: string)
    requires AllSeparator(sep, lead)
    requires tail != [] && IsWord(sep, tail[0])
    ensures Tokenize(sep, lead + tail) == (if lead == [] then [] else [""]) + Tokenize(sep, tail)
  {
    if lead == [] {
      assert lead + tail == tail;
    } else {
      assert lead + tail == "" + lead + tail;
      UnfoldAt(sep, "", lead, tail);
    }
  }

  /** The split of optional leading separators, a word, separators, a second
      word and a rest that is empty or starts with a separator: one empty token
      when there is a lead, then the two words, then the tokens of the rest. */
  lemma TwoLeadingWords(sep: set<char>, lead: string, a: string, gap: string, b: string, rest: string)
    returns (more: seq<string>)
    requires a != "" && b != "" && gap != ""
    requires AllSeparator(sep, lead) && AllSeparator(sep, gap)
    requires AllWord(sep, a) && AllWord(sep, b)
    requires rest == [] || !IsWord(sep, rest[0])
    ensures Tokenize(sep, lead + a + gap + b + rest) == (if lead == [] then [] else [""]) + [a, b] + more
  {
    var tail := a + gap + b + rest;
    more := TwoWordsThenRest(sep, a, gap, b, rest);
    assert tail[0] == a[0];
    LeadingSeparators(sep, lead, tail);
    Regroup(lead, a, gap, b, rest);
  }

  lemma Regroup<T>(p: seq<T>, q: seq<T>, r: seq<T>, s: seq<T>, t: seq<T>)
    ensures p + q + r + s + t == p + (q + r + s + t)
  {
  }

  lemma RegroupLast<T>(p: seq<T>, q: seq<T>, r: seq<T>, s: seq<T>)
    ensures p + q + r + s == p + q + (r + s)
  {
  }

  /** Behind the first separator of a split comes a word character or nothing. */
  lemma AfterFirstSeparator(sep: set<char>, s: string, ts: seq<string>, seps: seq<string>)
    requires IsSplit(sep, s, ts, seps) && seps != []
    ensures var tail := Interleave(ts[1..], seps[1..]);
            tail == [] || IsWord(sep, tail[0])
  {
    var tail := Interleave(ts[1..], seps[1..]);
    if tail != [] {
      if |seps| > 1 {
        assert ts[1] != [];
        assert tail == ts[1] + (seps[1] + Interleave(ts[2..], seps[2..]));
        assert tail[0] == ts[1][0];
      } else {
        assert tail == ts[1];
      }
    }
  }

  /** Dropping the first token and separator of a split leaves a split. */
  lemma SplitTail(sep: set<char>, s: string, ts: seq<string>, seps: seq<string>)
    requires IsSplit(sep, s, ts, seps) && seps != []
    ensures s == ts[0] + seps[0] + Interleave(ts[1..], seps[1..])
    ensures IsSplit(sep, Interleave(ts[1..], seps[1..]), ts[1..], seps[1..])
  {
    forall i | 0 < i < |ts[1..]| - 1 ensures ts[1..][i] != [] {
      assert ts[1..][i] == ts[i + 1];
    }
  }

  /** The split is unique: any decomposition of `s` into word tokens and maximal
      separator runs is the one `Tokenize` and `Separators` return. */
  lemma {:induction false} SplitIsUnique(sep: set<char>, s: string, ts: seq<string>, seps: seq<string>)
    requires IsSplit(sep, s, ts, seps)
    ensures ts == Tokenize(sep, s) && seps == Separators(sep, s)
    decreases |s|
  {
    if seps == [] {
      RunOfWordPrefix(sep, ts[0], []);
      assert ts[0] + [] == s;
    } else {
      var tail := Interleave(ts[1..], seps[1..]);
      SplitTail(sep, s, ts, seps);
      AfterFirstSeparator(sep, s, ts, seps);
      UnfoldAt(sep, ts[0], seps[0], tail);
      SplitIsUnique(sep, tail, ts[1..], seps[1..]);
      assert ts == [ts[0]] + ts[1..];
      assert seps == [seps[0]] + seps[1..];
    }
  }

  /** Two word runs around one separator run split into exactly those two. */
  lemma TwoTokens(sep: set<char>, a: string, gap: string, b: string)
    requires a != "" && b != "" && gap != ""
    requires AllWord(sep, a) && AllWord(sep, b) && AllSeparator(sep, gap)
    ensures Tokenize(sep, a + gap + b) == [a, b]
  {
    var s := a + gap + b;
    assert Interleave([a, b], [gap]) == s by {
      assert [a, b][1..] == [b];
    }
    assert IsSplit(sep, s, [a, b], [gap]);
    SplitIsUnique(sep, s, [a, b], [gap]);
  }

  /** A single word run is its own only token. */
  lemma OneToken(sep: set<char>, a: string)
    requires AllWord(sep, a)
    ensures Tokenize(sep, a) == [a]
  {
    assert IsSplit(sep, a, [a], []);
    SplitIsUnique(sep, a, [a], []);
  }

  /** `re.split` of the empty string is `[""]`. */
  lemma TokenizeEmpty(sep: set<char>)
    ensures Tokenize(sep, "") == [""]
  {
  }

  /** A text that starts with a non-word character yields an empty first token. */
  lemma LeadingSeparator(sep: set<char>, s: string)
    requires s != [] && !IsWord(sep, s[0])
    ensures Tokenize(sep, s)[0] == ""
  {
  }

  /** A text that ends with a non-word character yields an empty last token. */
  lemma TrailingSeparator(sep: set<char>, s: string)
    requires s != [] && !IsWord(sep, s[|s| - 1])
    ensures Tokenize(sep, s)[|Tokenize(sep, s)| - 1] == ""
  {
    var ts, seps := Tokenize(sep, s), Separators(sep, s);
    TokenizeSplits(sep, s);
    var last := ts[|ts| - 1];
    var p := InterleaveEndsWithLast(ts, seps);
    WordSuffixOfSeparatorEnd(sep, s, p, last);
  }

  /** A word run at the end of a text that ends with a non-word character is empty. */
  lemma WordSuffixOfSeparatorEnd(sep: set<char>, s: string, p: string, last: string)
    requires s == p + last && AllWord(sep, last)
    requires s != [] && !IsWord(sep, s[|s| - 1])
    ensures last == ""
  {
  }

  /** The interleaving ends with the last token. */
  lemma {:induction false} InterleaveEndsWithLast(ts: seq<string>, seps: seq<string>) returns (p: string)
    requires |ts| == |seps| + 1
    ensures Interleave(ts, seps) == p + ts[|ts| - 1]
    decreases |seps|
  {
    if seps == [] {
      p := "";
    } else {
      var q := InterleaveEndsWithLast(ts[1..], seps[1..]);
      p := ts[0] + seps[0] + q;
      assert ts[1..][|ts[1..]| - 1] == ts[|ts| - 1];
    }
  }
}
