/** Star Trek episode documents for topic modelling: every line spoken in an
    episode, character block by character block, becomes one string per
    episode, keyed by the series name, `_` and the second word of the
    episode name; and the per-document topic probabilities are copied into
    rows. */
module StarTrek {
  import opened Containers
  import opened Tokenizer

  /* ---------- input ---------- */

  /** One episode of the parsed JSON: its name and, per character, the list of
      lines that character speaks (the values of the episode's object, in
      order; the character names themselves are never used). */
  datatype Episode = Episode(name: string, blocks: seq<seq<string>>)

  /** One series of the parsed JSON: its name and its episodes, in order. */
  datatype Series = Series(name: string, episodes: seq<Episode>)

  /* ---------- joining lines ---------- */

  /** `' '.join(lines)` */
  function Join(lines: seq<string>): string
  {
    if lines == [] then ""
    else if |lines| == 1 then lines[0]
    else Join(lines[..|lines| - 1]) + " " + lines[|lines| - 1]
  }

  /** The joined lines are empty exactly when there are no lines or only one
      empty line: two or more lines always leave a space between them. */
  lemma {:induction false} JoinEmpty(lines: seq<string>)
    ensures Join(lines) == "" <==> lines == [] || lines == [""]
  {
    if |lines| > 1 {
      var init := lines[..|lines| - 1];
      assert |Join(init) + " " + lines[|lines| - 1]| >= 1;
    }
  }

  /** Lines 45-50: the text of an episode, `' ' + ' '.join(lines)` for every
      character block whose joined lines are not empty. */
  function EpisodeText(blocks: seq<seq<string>>): string
  {
    if blocks == [] then ""
    else
      var lines := Join(blocks[|blocks| - 1]);
      EpisodeText(blocks[..|blocks| - 1]) + (if |lines| != 0 then " " + lines else "")
  }

  /** The text of consecutive runs of blocks is the concatenation of their texts. */
  lemma {:induction false} EpisodeTextAppend(xs: seq<seq<string>>, ys: seq<seq<string>>)
    ensures EpisodeText(xs + ys) == EpisodeText(xs) + EpisodeText(ys)
    decreases |ys|
  {
    if ys == [] {
      assert xs + ys == xs;
    } else {
      var init, last := ys[..|ys| - 1], ys[|ys| - 1];
      var piece := if Join(last) != "" then " " + Join(last) else "";
      EpisodeTextAppend(xs, init);
      assert EpisodeText(xs + ys) == EpisodeText(xs + init) + piece by {
        assert (xs + ys)[..|xs + ys| - 1] == xs + init;
        assert (xs + ys)[|xs + ys| - 1] == last;
      }
      assert EpisodeText(ys) == EpisodeText(init) + piece;
    }
  }

  /** A block whose lines join to nothing adds nothing, wherever it stands. */
  lemma EmptyBlockAddsNothing(xs: seq<seq<string>>, block: seq<string>, ys: seq<seq<string>>)
    requires Join(block) == ""
    ensures EpisodeText(xs + [block] + ys) == EpisodeText(xs + ys)
  {
    EpisodeTextAppend(xs + [block], ys);
    EpisodeTextAppend(xs, [block]);
    EpisodeTextAppend(xs, ys);
    assert [block][..0] == [];
  }

  /** An episode text is empty or starts with a space, and it is empty exactly
      when every block joins to nothing. */
  lemma EpisodeTextShape(blocks: seq<seq<string>>)
    ensures EpisodeText(blocks) == "" || EpisodeText(blocks)[0] == ' '
    ensures EpisodeText(blocks) == "" <==> forall b :: b in blocks ==> Join(b) == ""
  {
    EpisodeTextStartsWithSpace(blocks);
    EpisodeTextEmpty(blocks);
  }

  lemma {:induction false} EpisodeTextStartsWithSpace(blocks: seq<seq<string>>)
    ensures EpisodeText(blocks) == "" || EpisodeText(blocks)[0] == ' '
  {
    if blocks != [] {
      var init, last := blocks[..|blocks| - 1], blocks[|blocks| - 1];
      EpisodeTextStartsWithSpace(init);
      var piece := if Join(last) != "" then " " + Join(last) else "";
      assert EpisodeText(blocks) == EpisodeText(init) + piece;
      if EpisodeText(init) == "" {
        assert EpisodeText(blocks) == piece;
      } else {
        assert EpisodeText(blocks)[0] == EpisodeText(init)[0];
      }
    }
  }

  lemma {:induction false} EpisodeTextEmpty(blocks: seq<seq<string>>)
    ensures EpisodeText(blocks) == "" <==> forall b :: b in blocks ==> Join(b) == ""
  {
    if blocks != [] {
      var init, last := blocks[..|blocks| - 1], blocks[|blocks| - 1];
      EpisodeTextEmpty(init);
      EmptySnoc(init, last);
      assert blocks == init + [last];
    }
  }

  /** One block more at the end: the text stays empty exactly when the block
      joins to nothing. */
  lemma EmptySnoc(init: seq<seq<string>>, last: seq<string>)
    ensures EpisodeText(init + [last]) == "" <==> EpisodeText(init) == "" && Join(last) == ""
    ensures (forall b :: b in init + [last] ==> Join(b) == "") <==>
            (forall b :: b in init ==> Join(b) == "") && Join(last) == ""
  {
    assert (init + [last])[..|init|] == init;
  }

  /** The episode-string loop of lines 43-50. */
  method EpisodeString(blocks: seq<seq<string>>) returns (episodeString: string)
    ensures episodeString == EpisodeText(blocks)
  {
    episodeString := "";
    var i := 0;
    while i < |blocks|
      invariant 0 <= i <= |blocks|
      invariant episodeString == EpisodeText(blocks[..i])
    {
      var lines := Join(blocks[i]);
      assert blocks[..i + 1][..i] == blocks[..i];
      if |lines| != 0 {
        episodeString := episodeString + " " + lines;
      }
      i := i + 1;
    }
    assert blocks[..i] == blocks;
  }

  /* ---------- episode keys ---------- */

  /** The characters `str.split()` and `str.isspace()` treat as whitespace. */
  const Whitespace: set<char> := {
    '\t', '\n', '\U{0B}', '\U{0C}', '\r', '\U{1C}', '\U{1D}', '\U{1E}', '\U{1F}', ' ',
    '\U{85}', '\U{A0}', '\U{1680}',
    '\U{2000}', '\U{2001}', '\U{2002}', '\U{2003}', '\U{2004}', '\U{2005}', '\U{2006}',
    '\U{2007}', '\U{2008}', '\U{2009}', '\U{200A}',
    '\U{2028}', '\U{2029}', '\U{202F}', '\U{205F}', '\U{3000}'
  }

  /** The non-empty strings of `ts`, in order. */
  function NonEmpty(ts: seq<string>): (r: seq<string>)
    ensures forall t :: t in r <==> t in ts && t != ""
    ensures forall t :: multiset(r)[t] == if t != "" then multiset(ts)[t] else 0
  {
    if ts == [] then []
    else
      assert ts == ts[..|ts| - 1] + [ts[|ts| - 1]];
      NonEmpty(ts[..|ts| - 1]) + (if ts[|ts| - 1] != "" then [ts[|ts| - 1]] else [])
  }

  /** Filtering a concatenation filters each part, keeping their order. */
  lemma {:induction false} NonEmptyAppend(xs: seq<string>, ys: seq<string>)
    ensures NonEmpty(xs + ys) == NonEmpty(xs) + NonEmpty(ys)
    decreases |ys|
  {
    if ys == [] {
      assert xs + ys == xs;
    } else {
      var init := ys[..|ys| - 1];
      assert (xs + ys)[..|xs + ys| - 1] == xs + init;
      NonEmptyAppend(xs, init);
    }
  }

  /** A list without empty strings passes the filter unchanged. */
  lemma {:induction false} NonEmptyKeepsAll(ts: seq<string>)
    requires forall i :: 0 <= i < |ts| ==> ts[i] != ""
    ensures NonEmpty(ts) == ts
    decreases |ts|
  {
    if ts != [] {
      var init := ts[..|ts| - 1];
      NonEmptyKeepsAll(init);
      assert ts == init + [ts[|ts| - 1]];
    }
  }

  /** `s.split()`: the maximal runs of non-whitespace characters. */
  function Words(s: string): seq<string>
  {
    NonEmpty(Tokenize(Whitespace, s))
  }

  /** Every word is non-empty and holds no whitespace. */
  lemma WordsAreWords(s: string)
    ensures forall i :: 0 <= i < |Words(s)| ==> Words(s)[i] != "" && AllWord(Whitespace, Words(s)[i])
  {
    PiecesAreRuns(Whitespace, s);
    forall i | 0 <= i < |Words(s)|
      ensures Words(s)[i] != "" && AllWord(Whitespace, Words(s)[i])
    {
      assert Words(s)[i] in Tokenize(Whitespace, s);
    }
  }

  /** A single string passes the filter unless it is empty. */
  lemma NonEmptySingle(t: string)
    ensures NonEmpty([t]) == if t == "" then [] else [t]
  {
    assert [t][..0] == [];
  }

  /** The filter drops an empty first and an empty last string and keeps
      the non-empty ones between them. */
  lemma NonEmptyInner(first: string, mid: seq<string>, last: string)
    requires forall i :: 0 <= i < |mid| ==> mid[i] != ""
    ensures NonEmpty([first] + mid + [last]) == NonEmpty([first]) + mid + NonEmpty([last])
  {
    NonEmptyAppend([first] + mid, [last]);
    NonEmptyAppend([first], mid);
    NonEmptyKeepsAll(mid);
  }

  /** A sequence of at least two elements is its first, its middle and its last. */
  lemma FirstMiddleLast<T>(ts: seq<T>)
    requires |ts| >= 2
    ensures ts == [ts[0]] + ts[1..|ts| - 1] + [ts[|ts| - 1]]
  {
  }

  /** The words are the whitespace split of the text with an empty first and
      an empty last piece dropped; every piece in between is kept, in order. */
  lemma WordsExact(s: string, ts: seq<string>)
    requires ts == Tokenize(Whitespace, s)
    ensures |ts| == 1 ==> Words(s) == NonEmpty([ts[0]])
    ensures |ts| >= 2 ==> Words(s) == NonEmpty([ts[0]]) + ts[1..|ts| - 1] + NonEmpty([ts[|ts| - 1]])
  {
    assert Words(s) == NonEmpty(ts);
    if |ts| == 1 {
      assert ts == [ts[0]];
    } else {
      InnerTokensNonEmpty(Whitespace, s);
      FirstMiddleLast(ts);
      NonEmptyInner(ts[0], ts[1..|ts| - 1], ts[|ts| - 1]);
    }
  }

  /** Two words with whitespace between them split into exactly those words. */
  lemma TwoWords(a: string, gap: string, b: string)
    requires a != "" && b != "" && gap != ""
    requires AllWord(Whitespace, a) && AllWord(Whitespace, b) && AllSeparator(Whitespace, gap)
    ensures Words(a + gap + b) == [a, b]
  {
    TwoTokens(Whitespace, a, gap, b);
    assert NonEmpty([a]) == [a] by {
      assert [a][..0] == [];
    }
    assert NonEmpty([a, b]) == [a, b] by {
      assert [a, b][..1] == [a];
    }
  }

  /** A name that is one word and nothing else has fewer than two words. */
  lemma OneWord(a: string)
    requires a != "" && AllWord(Whitespace, a)
    ensures Words(a) == [a]
  {
    OneToken(Whitespace, a);
    assert NonEmpty([a]) == [a] by {
      assert [a][..0] == [];
    }
  }

  /** Line 53: `series_name + '_' + episode_name.split()[1]`, which raises
      IndexError when the episode name has fewer than two words. */
  function EpisodeKey(seriesName: string, episodeName: string): (r: Result<string>)
    ensures r.Err? <==> |Words(episodeName)| < 2
    ensures r.Err? ==> r.error == IndexError
  {
    var words := Words(episodeName);
    if |words| < 2 then Err(IndexError) else Ok(seriesName + "_" + words[1])
  }

  /** The filter of an optional empty string, two words and any more strings
      starts with the two words. */
  lemma NonEmptyTwoFirst(pre: seq<string>, a: string, b: string, more: seq<string>)
    requires pre == [] || pre == [""]
    requires a != "" && b != ""
    ensures |NonEmpty(pre + [a, b] + more)| >= 2
    ensures NonEmpty(pre + [a, b] + more)[..2] == [a, b]
  {
    NonEmptyAppend(pre + [a, b], more);
    NonEmptyAppend(pre, [a, b]);
    assert NonEmpty(pre) == [] by {
      assert pre == [] || pre[..0] == [];
    }
    NonEmptyKeepsAll([a, b]);
  }

  /** A name made of optional leading whitespace, a word, whitespace, a second
      word and a rest that is empty or starts with whitespace ("Episode 12",
      " Episode 12", "Episode 12 Part 2") has those two words first. */
  lemma WordsOfName(lead: string, a: string, gap: string, b: string, rest: string)
    requires a != "" && b != "" && gap != ""
    requires AllSeparator(Whitespace, lead) && AllSeparator(Whitespace, gap)
    requires AllWord(Whitespace, a) && AllWord(Whitespace, b)
    requires rest == [] || !IsWord(Whitespace, rest[0])
    ensures |Words(lead + a + gap + b + rest)| >= 2
    ensures Words(lead + a + gap + b + rest)[..2] == [a, b]
  {
    var name := lead + a + gap + b + rest;
    var pre: seq<string> := if lead == [] then [] else [""];
    var more := TwoLeadingWords(Whitespace, lead, a, gap, b, rest);
    assert Words(name) == NonEmpty(pre + [a, b] + more);
    NonEmptyTwoFirst(pre, a, b, more);
  }

  /** Such a name under series "TNG", for instance "Episode 12", gets the key
      "TNG_12": the second word, whatever precedes the first or follows the second. */
  lemma KeyOfName(seriesName: string, lead: string, a: string, gap: string, b: string, rest: string)
    requires a != "" && b != "" && gap != ""
    requires AllSeparator(Whitespace, lead) && AllSeparator(Whitespace, gap)
    requires AllWord(Whitespace, a) && AllWord(Whitespace, b)
    requires rest == [] || !IsWord(Whitespace, rest[0])
    ensures EpisodeKey(seriesName, lead + a + gap + b + rest) == Ok(seriesName + "_" + b)
  {
    WordsOfName(lead, a, gap, b, rest);
    assert Words(lead + a + gap + b + rest)[1] == [a, b][1];
  }

  /* ---------- the episodes dictionary ---------- */

  /** Every episode with its series name, series by series. */
  function AllEpisodes(lineDict: seq<Series>): (r: seq<(string, Episode)>)
  {
    if lineDict == [] then []
    else
      var series := lineDict[|lineDict| - 1];
      AllEpisodes(lineDict[..|lineDict| - 1]) + Tagged(series.name, series.episodes)
  }

  function Tagged(seriesName: string, episodes: seq<Episode>): (r: seq<(string, Episode)>)
    ensures |r| == |episodes| && forall i :: 0 <= i < |r| ==> r[i] == (seriesName, episodes[i])
  {
    seq(|episodes|, i requires 0 <= i < |episodes| => (seriesName, episodes[i]))
  }

  /** The `(episode_key, episode_string)` assignments in the order they are
      made, or the error of the first episode whose key cannot be formed. */
  function Assignments(eps: seq<(string, Episode)>): Result<seq<(string, string)>>
  {
    if eps == [] then Ok([])
    else
      var last := eps[|eps| - 1];
      match Assignments(eps[..|eps| - 1])
      case Err(e) => Err(e)
      case Ok(ps) =>
        match EpisodeKey(last.0, last.1.name)
        case Err(e) => Err(e)
        case Ok(key) => Ok(ps + [(key, EpisodeText(last.1.blocks))])
  }

  /** The assignments fail, with IndexError, exactly when some episode name
      has fewer than two words. */
  lemma {:induction false} AssignmentsFail(eps: seq<(string, Episode)>)
    ensures Assignments(eps).Ok? <==> forall i :: 0 <= i < |eps| ==> |Words(eps[i].1.name)| >= 2
    ensures Assignments(eps).Err? ==> Assignments(eps).error == IndexError
  {
    if eps != [] {
      var init := eps[..|eps| - 1];
      AssignmentsFail(init);
      assert forall i :: 0 <= i < |init| ==> init[i] == eps[i];
    }
  }

  /** Otherwise every episode gets its key and its text, in order. */
  lemma {:induction false} AssignmentsExact(eps: seq<(string, Episode)>)
    requires Assignments(eps).Ok?
    ensures |Assignments(eps).value| == |eps|
    ensures forall i :: 0 <= i < |eps| ==>
              Ok(Assignments(eps).value[i].0) == EpisodeKey(eps[i].0, eps[i].1.name) &&
              Assignments(eps).value[i].1 == EpisodeText(eps[i].1.blocks)
  {
    if eps != [] {
      var init, last := eps[..|eps| - 1], eps[|eps| - 1];
      var ps := Assignments(init).value;
      AssignmentsExact(init);
      var row := (EpisodeKey(last.0, last.1.name).value, EpisodeText(last.1.blocks));
      assert Assignments(eps).value == ps + [row];
      forall i | 0 <= i < |eps|
        ensures Ok(Assignments(eps).value[i].0) == EpisodeKey(eps[i].0, eps[i].1.name) &&
                Assignments(eps).value[i].1 == EpisodeText(eps[i].1.blocks)
      {
        if i < |init| {
          assert init[i] == eps[i];
        }
      }
    }
  }

  /** Once an episode has failed, later episodes do not matter. */
  lemma {:induction false} AssignmentsErrStays(eps: seq<(string, Episode)>, more: seq<(string, Episode)>)
    requires Assignments(eps).Err?
    ensures Assignments(eps + more) == Assignments(eps)
    decreases |more|
  {
    if more == [] {
      assert eps + more == eps;
    } else {
      AssignmentsErrStays(eps, more[..|more| - 1]);
      assert (eps + more)[..|eps + more| - 1] == eps + more[..|more| - 1];
    }
  }

  /** Lines 40-54: the `episodes` dictionary, one entry per distinct key, a
      later episode with the same key overwriting the earlier one's text. */
  method AssembleEpisodes(lineDict: seq<Series>) returns (r: Result<Dict<string, string>>)
    ensures Assignments(AllEpisodes(lineDict)).Err? ==> r == Err(IndexError)
    ensures Assignments(AllEpisodes(lineDict)).Ok? ==> r == Ok(FromPairs(Assignments(AllEpisodes(lineDict)).value))
  {
    var episodes: Dict<string, string> := Empty();
    ghost var done: seq<(string, string)> := [];
    var s := 0;
    while s < |lineDict|
      invariant 0 <= s <= |lineDict|
      invariant Assignments(AllEpisodes(lineDict[..s])) == Ok(done)
      invariant episodes == FromPairs(done)
    {
      var series := lineDict[s];
      var added;
      ghost var doneAfter;
      added, doneAfter := AddSeries(episodes, AllEpisodes(lineDict[..s]), done, series);
      SeriesDone(lineDict, s);
      if added.Err? {
        AssignmentsErrStays(AllEpisodes(lineDict[..s + 1]), AllEpisodes(lineDict[s + 1..]));
        AllEpisodesAppend(lineDict[..s + 1], lineDict[s + 1..]);
        assert lineDict[..s + 1] + lineDict[s + 1..] == lineDict;
        return Err(IndexError);
      }
      episodes, done := added.value, doneAfter;
      s := s + 1;
    }
    assert lineDict[..s] == lineDict;
    return Ok(episodes);
  }

  /** The middle loop of lines 42-54: the episodes of one series, added to the
      dictionary built from the episodes `before` it. */
  method AddSeries(episodes: Dict<string, string>, ghost before: seq<(string, Episode)>,
                   ghost done: seq<(string, string)>, series: Series)
    returns (r: Result<Dict<string, string>>, ghost doneAfter: seq<(string, string)>)
    requires Assignments(before) == Ok(done) && episodes == FromPairs(done)
    ensures Assignments(before + Tagged(series.name, series.episodes)).Err? ==> r == Err(IndexError)
    ensures Assignments(before + Tagged(series.name, series.episodes)).Ok? ==>
              Assignments(before + Tagged(series.name, series.episodes)) == Ok(doneAfter) &&
              r == Ok(FromPairs(doneAfter))
  {
    var current := episodes;
    doneAfter := done;
    assert before + Tagged(series.name, series.episodes[..0]) == before;
    var e := 0;
    while e < |series.episodes|
      invariant 0 <= e <= |series.episodes|
      invariant Assignments(before + Tagged(series.name, series.episodes[..e])) == Ok(doneAfter)
      invariant current == FromPairs(doneAfter)
    {
      var episode := series.episodes[e];
      var episodeString := EpisodeString(episode.blocks);
      var episodeKey := EpisodeKey(series.name, episode.name);
      TaggedStep(before, series.name, series.episodes, e);
      if episodeKey.Err? {
        AssignmentsErrStays(before + Tagged(series.name, series.episodes[..e + 1]),
                            Tagged(series.name, series.episodes[e + 1..]));
        return Err(IndexError), doneAfter;
      }
      current := current.Put(episodeKey.value, episodeString);
      doneAfter := doneAfter + [(episodeKey.value, episodeString)];
      e := e + 1;
    }
    assert series.episodes[..e] == series.episodes;
    return Ok(current), doneAfter;
  }

  /** One episode more in the middle loop. */
  lemma TaggedStep(before: seq<(string, Episode)>, name: string, episodes: seq<Episode>, e: nat)
    requires e < |episodes|
    ensures before + Tagged(name, episodes[..e + 1]) == (before + Tagged(name, episodes[..e])) + [(name, episodes[e])]
    ensures (before + Tagged(name, episodes[..e + 1]))[..|before| + e] == before + Tagged(name, episodes[..e])
    ensures before + Tagged(name, episodes[..e + 1]) + Tagged(name, episodes[e + 1..]) == before + Tagged(name, episodes)
  {
  }

  /** One series more in the outer loop. */
  lemma SeriesDone(lineDict: seq<Series>, s: nat)
    requires s < |lineDict|
    ensures AllEpisodes(lineDict[..s + 1]) == AllEpisodes(lineDict[..s]) + Tagged(lineDict[s].name, lineDict[s].episodes)
  {
    assert lineDict[..s + 1][..s] == lineDict[..s];
  }

  lemma {:induction false} AllEpisodesAppend(xs: seq<Series>, ys: seq<Series>)
    ensures AllEpisodes(xs + ys) == AllEpisodes(xs) + AllEpisodes(ys)
    decreases |ys|
  {
    if ys == [] {
      assert xs + ys == xs;
    } else {
      var init, last := ys[..|ys| - 1], ys[|ys| - 1];
      assert ys == init + [last];
      AllEpisodesAppend(xs, init);
      AllEpisodesSnoc(init, last);
      AllEpisodesSnocAfter(xs, init, last);
    }
  }

  lemma AllEpisodesSnocAfter(xs: seq<Series>, init: seq<Series>, last: Series)
    ensures AllEpisodes(xs + (init + [last])) == AllEpisodes(xs + init) + Tagged(last.name, last.episodes)
  {
    assert xs + (init + [last]) == (xs + init) + [last];
    AllEpisodesSnoc(xs + init, last);
  }

  /** One series more at the end. */
  lemma AllEpisodesSnoc(xs: seq<Series>, last: Series)
    ensures AllEpisodes(xs + [last]) == AllEpisodes(xs) + Tagged(last.name, last.episodes)
  {
    assert (xs + [last])[..|xs|] == xs;
  }

  /** Line 57: `list(episodes.values())`, the texts in key insertion order; an
      episode whose key was used again holds the text of the last one. */
  lemma EpisodeLines(lineDict: seq<Series>)
    requires Assignments(AllEpisodes(lineDict)).Ok?
    ensures var ps := Assignments(AllEpisodes(lineDict)).value;
            var d := FromPairs(ps);
            d.Valid() && d.keys == Dedup(KeysOf(ps)) && |d.Values()| == |Dedup(KeysOf(ps))| &&
            (forall p :: 0 <= p < |ps| ==> ps[p].0 in d.vals) &&
            forall p :: 0 <= p < |ps| && (forall q :: p < q < |ps| ==> ps[q].0 != ps[p].0) ==>
              d.vals[ps[p].0] == ps[p].1
  {
    var ps := Assignments(AllEpisodes(lineDict)).value;
    FromPairsLastWins(ps);
    assert forall p :: 0 <= p < |ps| ==> ps[p].0 == KeysOf(ps)[p];
  }

  /* ---------- topic rows ---------- */

  /** Lines 111-116: for every document, the probabilities of its
      `(topic, probability)` pairs, in order. Probabilities are kept abstract. */
  method TopicRows<P>(values: seq<seq<(int, P)>>) returns (split: seq<seq<P>>)
    ensures |split| == |values|
    ensures forall k :: 0 <= k < |values| ==>
              |split[k]| == |values[k]| && forall j :: 0 <= j < |values[k]| ==> split[k][j] == values[k][j].1
  {
    split := [];
    var k := 0;
    while k < |values|
      invariant 0 <= k <= |values|
      invariant |split| == k
      invariant forall i :: 0 <= i < k ==>
                  |split[i]| == |values[i]| && forall j :: 0 <= j < |values[i]| ==> split[i][j] == values[i][j].1
    {
      var entry := values[k];
      var topicPrevalence: seq<P> := [];
      var j := 0;
      while j < |entry|
        invariant 0 <= j <= |entry|
        invariant |topicPrevalence| == j
        invariant forall t :: 0 <= t < j ==> topicPrevalence[t] == entry[t].1
      {
        topicPrevalence := topicPrevalence + [entry[j].1];
        j := j + 1;
      }
      split := split + [topicPrevalence];
      k := k + 1;
    }
  }
}
