# Language analytics scripts, modelled in Dafny

This project models the counting and data-shaping core of three language
analytics scripts:

- **Collocation counting** (`assignment_2/1_collocation.py`). Documents are
  tokenized with `re.split(r"\W+")`. The tokens are concatenated into one
  corpus and lower-cased. Every occurrence of a keyword gets a window of the
  `w` tokens on either side, and the script then pops index `w` of each
  window to drop the occurrence itself. For an occurrence among the first `w`
  tokens that pop removes `tokens[w]` instead, and a corpus of at most `w`
  tokens raises IndexError (see Findings). From the concordances the script
  builds the contingency counts O11, O21, C1, R1 and O12 for every collocate.
- **Person co-occurrence network** (`assignment_4/1_network.py`). Every pair
  of person mentions in a text becomes an edge with its two names sorted.
  The header row is dropped when the edge file is read back. Edges are
  weighted by a `Counter`, and only those whose weight is strictly greater
  than `min_weight` are kept.
- **Star Trek topic documents** (`assignment_5/1_star_trek_lda.py`). The
  spoken lines of each episode are joined into one string per episode. That
  string is keyed by the series name, `_` and the second whitespace-separated
  word of the episode name, and a later episode with the same key overwrites
  an earlier one. The per-document topic probabilities are
  copied into rows.

Modules:

- `Containers`: the Python containers the scripts rely on. It provides the
  insertion-ordered `dict` (`Dict`), `Counter` and `d[x] += 1` (`Tally`),
  the first-occurrence order of keys (`Dedup`), and `list.count`
  (`multiset(xs)[x]`).
- `Tokenizer`: `re.split` on maximal runs of separator characters.
- `Collocation`, `Network` and `StarTrek`: one module per script.

Loops in the scripts are methods with loop invariants. Each method is proved
equal to a specification function, or to the properties the script's comments
promise. Those functions are in turn characterised by lemmas.

Two of the scripts' own operations are parameters of the model:

- The regex class `\W` is the set `sep` of separator characters.
- `str.lower` is a function `lower`.

Everything proved therefore holds for any Unicode table. For `str.split()`,
`Whitespace` lists the characters Python's `str.isspace` accepts.

`re.split` (lines 7-14 of the collocation script) keeps an empty first or
last token, and the model does the same: a text that starts or ends with a
non-word character yields an empty first or last token (`Tokenizer.LeadingSeparator`, `Tokenizer.TrailingSeparator`). The empty
tokens reach the corpus and are counted like any other token.

## Model

| member | source | states |
|---|---|---|
| Tokenizer.Tokenize | assignment_2/1_collocation.py:7-14 | `re.split(r"\W+", s)` always returns at least one piece |
| Tokenizer.RoundTrip | assignment_2/1_collocation.py:7-14 | there is one more token than separator run, and tokens and separator runs interleaved give back the input text |
| Tokenizer.PiecesAreRuns | assignment_2/1_collocation.py:7-14 | no token holds a separator character; every separator run is non-empty and made only of separator characters |
| Tokenizer.InnerTokensNonEmpty | assignment_2/1_collocation.py:7-14 | only the first and the last token can be empty, so each split is at a maximal run of `\W+` |
| Tokenizer.TokenizeSplits | assignment_2/1_collocation.py:7-14 | the output is a split of the input at maximal separator runs (round trip, pieces, non-empty inner tokens) |
| Tokenizer.SplitIsUnique | assignment_2/1_collocation.py:7-14 | any split of the text at maximal separator runs is the one `tokenize` returns, so the function is fully characterised |
| Tokenizer.TwoTokens | assignment_2/1_collocation.py:7-14 | two word runs with one separator run between them split into exactly those two tokens |
| Tokenizer.OneToken | assignment_2/1_collocation.py:7-14 | a text without separator characters is a single token |
| Tokenizer.TokenizeEmpty | assignment_2/1_collocation.py:7-14 | the empty text yields `[""]` |
| Tokenizer.LeadingSeparator | assignment_2/1_collocation.py:7-14 | a text that starts with a non-word character yields an empty first token |
| Tokenizer.TrailingSeparator | assignment_2/1_collocation.py:7-14 | a text that ends with a non-word character yields an empty last token |
| Containers.Tally | assignment_2/1_collocation.py:20-25 | counting with `d[x] += 1` (or `Counter`); characterised by `TallyCounts` and `TallySum` |
| Containers.TallyCounts | assignment_2/1_collocation.py:20-25 | counting by `d[x] += 1` (or `Counter`) keys each distinct element once in first-seen order and maps it to its number of occurrences |
| Containers.TallySum | assignment_2/1_collocation.py:20-25 | the counts of a tally add up to the length of the counted list |
| Containers.DedupProperties | assignment_2/1_collocation.py:20-25 | the first-occurrence key list holds exactly the elements of the list, each once |
| Containers.FromPairs | assignment_5/1_star_trek_lda.py:54 | the dictionary built by `episodes[key] = value` in order; characterised by `FromPairsLastWins` |
| Containers.FromPairsLastWins | assignment_5/1_star_trek_lda.py:54 | assigning key/value pairs in order keeps each key once in first-assignment order, with the value of its last assignment |
| Collocation.ReadCorpus | assignment_2/1_collocation.py:92-103 | the corpus is the documents' tokens concatenated in reading order, at least one token per document |
| Collocation.Corpus | assignment_2/1_collocation.py:95-103 | the corpus `tokens += tokenize(content)` over the documents in reading order holds at least one token per document |
| Collocation.KeywordIndices | assignment_2/1_collocation.py:112 | every listed position is inside the corpus and holds the keyword (the converse and the order are `KeywordIndicesExact`) |
| Collocation.KeywordIndicesExact | assignment_2/1_collocation.py:112 | the keyword positions are exactly the indices holding the keyword, strictly increasing, as many as `tokens.count(keyword)` |
| Collocation.Window | assignment_2/1_collocation.py:115 | the slice `tokens[max(0, i - w) : i + w + 1]` has `Hi - Lo` elements, holds the occurrence at index `i - Lo`, and its `k`-th element is the corpus token at `Lo + k` |
| Collocation.PopAt | assignment_2/1_collocation.py:120 | `conc.pop(w)` succeeds exactly when `w < len(conc)`, and then leaves a list one shorter holding the original elements less one copy of `conc[w]` |
| Collocation.Concordances | assignment_2/1_collocation.py:112-120 | the corrected removal (see Findings): each concordance drops the keyword occurrence itself rather than index `w`, so it never raises the IndexError of line 120; there is one concordance per occurrence of the keyword in the corpus, as many as `tokens.count(keyword)` |
| Collocation.Concordance | assignment_2/1_collocation.py:115-120 | the concordance of the occurrence at `i` is the tokens at `max(0, i - w)` up to `i`, then after `i` up to `i + w` (clipped to the corpus); only the occurrence itself is removed |
| Collocation.PopAnchors | assignment_2/1_collocation.py:118-120 | the loop as written: it succeeds exactly when every window has more than `w` elements, and then each window has lost its element at index `w`; otherwise it raises IndexError at the first short window, with the earlier windows popped and the later ones untouched |
| Collocation.PopNearStart | assignment_2/1_collocation.py:115-120 | for an occurrence at `i < w` the window starts at the corpus start, and popping index `w` removes `tokens[w]` and keeps the keyword occurrence |
| Collocation.PopAtFarFromStart | assignment_2/1_collocation.py:115-120 | for an occurrence at least `w` tokens from the corpus start, popping index `w` removes exactly the keyword occurrence |
| Collocation.PopFailsIffShortCorpus | assignment_2/1_collocation.py:115-120 | `conc.pop(w)` raises IndexError exactly when the whole corpus has at most `w` tokens |
| Collocation.PopRemovesWrongToken | assignment_2/1_collocation.py:115-120 | in "cat the sat" with window 1, popping index 1 leaves `["cat"]`, while the concordance is `["the"]` |
| Collocation.ZeroWindow | assignment_2/1_collocation.py:115-120 | with window size 0 every concordance is empty, under either removal |
| Collocation.CalcO11 | assignment_2/1_collocation.py:16-27 | O11 maps each collocate, once and in first-appearance order, to its number of positions over all concordances; the counts add up to the concordances' total length |
| Collocation.CalcO21C1 | assignment_2/1_collocation.py:29-40 | C1 and O21 are keyed like O11; C1 is the collocate's count in the whole corpus and O21 = C1 - O11 |
| Collocation.CalcKwcountO12 | assignment_2/1_collocation.py:42-51 | R1 is the keyword's count in the corpus; O12 has O11's keys in O11's order, and O12 = R1 - O11 |
| Collocation.ZeroWindowNoCollocates | assignment_2/1_collocation.py:115-123 | with window size 0 there are no collocates at all |
| Collocation.O21CanBeNegative | assignment_2/1_collocation.py:29-40 | in "a kw x kw" with window 1, the script's pop at index 1 turns the windows `[a, kw, x]` and `[x, kw]` into `[a, x]` and `[x]`, the same as the concordances; x occurs once in the corpus but twice in the concordances, so O21 = C1 - O11 = -1 |
| Collocation.SpreadWindowsBound | assignment_2/1_collocation.py:29-40 | when keyword occurrences are more than `2w` apart, the concordances together hold no token more often than the corpus does, so O11 <= C1 |
| Collocation.CountCollocates | assignment_2/1_collocation.py:108-131 | N is the corpus size, and the O11, O21, C1 and O12 dictionaries share one key order; R1 equals the number of concordances when the searched and the counted keyword agree; window 0 gives no collocates; spread-out occurrences give no negative O21 |
| Collocation.CollocationCounts | assignment_2/1_collocation.py:86-131 | the corpus is every document's tokens lower-cased, and the counts on it satisfy all of `CountCollocates` for the lower-cased keyword |
| Network.LessIrreflexive | assignment_4/1_network.py:53 | no string sorts before itself |
| Network.LessAsymmetric | assignment_4/1_network.py:53 | two strings cannot each sort before the other |
| Network.LessTotal | assignment_4/1_network.py:53 | any two different strings are ordered one way or the other |
| Network.LessTransitive | assignment_4/1_network.py:53 | the string order is transitive |
| Network.SortedPair | assignment_4/1_network.py:53 | `tuple(sorted(edge))` for two names; its properties are `SortedPairOrdered` |
| Network.SortedPairOrdered | assignment_4/1_network.py:53 | `tuple(sorted(edge))` holds the same two names in ascending order and does not depend on their original order |
| Network.IndexPairsExact | assignment_4/1_network.py:49 | `combinations(range(k), 2)` yields exactly the pairs `i < j < k`, in lexicographic order, `k * (k - 1) / 2` of them |
| Network.Combinations | assignment_4/1_network.py:49 | `combinations(names, 2)` has one pair per index pair `i < j < len(names)`, holding `(names[i], names[j])`, in lexicographic order of the index pairs (the index pairs themselves are characterised by `IndexPairsExact`) |
| Network.TextEdgesExact | assignment_4/1_network.py:47-53 | a text with `k` mentions yields `k * (k - 1) / 2` edges, one per position pair `i < j`, each the sorted pair of those names, and every such pair is present |
| Network.AllEdges | assignment_4/1_network.py:44-53 | the edge list of all texts, text by text; characterised by `AllEdgesOrdered`, `AllEdgesLength` and `TextEdgesExact` |
| Network.AllEdgesOrdered | assignment_4/1_network.py:44-53 | every edge in the edge list has its names in ascending order |
| Network.AllEdgesLength | assignment_4/1_network.py:44-53 | the edge list has `k * (k - 1) / 2` edges for every text with `k` mentions |
| Network.EdgeList | assignment_4/1_network.py:44-53 | the nested loop builds the edge list text by text, each text's sorted combinations in order |
| Network.StripHeader | assignment_4/1_network.py:72-73 | reading `edgelist[0]` raises IndexError exactly on an empty list; otherwise the result is the list or the list without its first row |
| Network.HeaderRoundTrip | assignment_4/1_network.py:57-73 | writing the header row before the edges and stripping it when reading back gives the edges |
| Network.NoHeaderUnchanged | assignment_4/1_network.py:72-73 | rows that do not start with the header are kept as they are |
| Network.WeightEdges | assignment_4/1_network.py:78-84 | one row `(nodeA, nodeB, weight)` per item of `Counter(edgelist)`, in the counter's order; the weights add up to the number of edges |
| Network.Weighted | assignment_4/1_network.py:78-84 | one weighted row per distinct edge of the edge list (contents and order are `WeightedExact`) |
| Network.WeightedExact | assignment_4/1_network.py:78-84 | each distinct edge appears exactly once, in first-appearance order, weighted by its number of occurrences (at least 1); no other edge appears |
| Network.FilterByWeight | assignment_4/1_network.py:90 | `df[df["weight"] > min_weight]` keeps no more rows than it is given, and only rows whose weight exceeds `min_weight` (which rows, and in what order, is `FilterCounts` and `FilterKeepsOrder`) |
| Network.FilterSelects | assignment_4/1_network.py:90 | a row is kept exactly when its weight is strictly greater than `min_weight` |
| Network.FilterKeepsOrder | assignment_4/1_network.py:90 | the kept rows are in their original relative order |
| Network.FilterCounts | assignment_4/1_network.py:90 | a row's multiplicity is kept when its weight passes and is zero otherwise |
| Network.FilterKeepsAll | assignment_4/1_network.py:90 | when every weight passes the filter, nothing is dropped |
| Network.WeightedNetwork | assignment_4/1_network.py:44-112 | from the persons of each text to the filtered weighted edges; with the default `min_weight` of 0 every weighted edge is kept |
| StarTrek.Join | assignment_5/1_star_trek_lda.py:46 | `' '.join(lines)`; its emptiness is `JoinEmpty` |
| StarTrek.JoinEmpty | assignment_5/1_star_trek_lda.py:46-49 | `' '.join(lines)` is empty exactly when there are no lines or only one empty line |
| StarTrek.EpisodeText | assignment_5/1_star_trek_lda.py:43-50 | the episode string built from the character blocks; characterised by `EpisodeTextAppend`, `EmptyBlockAddsNothing` and `EpisodeTextShape` |
| StarTrek.EpisodeTextAppend | assignment_5/1_star_trek_lda.py:43-50 | the text of consecutive runs of character blocks is the concatenation of their texts |
| StarTrek.EmptyBlockAddsNothing | assignment_5/1_star_trek_lda.py:48-50 | a character block whose lines join to nothing adds nothing, wherever it stands |
| StarTrek.EpisodeTextShape | assignment_5/1_star_trek_lda.py:43-50 | an episode string is empty or starts with a space, and it is empty exactly when every block joins to nothing |
| StarTrek.EpisodeString | assignment_5/1_star_trek_lda.py:43-50 | the loop builds `' ' + ' '.join(lines)` for each non-empty block, in order |
| StarTrek.NonEmpty | assignment_5/1_star_trek_lda.py:53 | the kept strings are exactly the non-empty ones, each as often as in the input |
| StarTrek.NonEmptyAppend | assignment_5/1_star_trek_lda.py:53 | filtering a concatenation filters each part and keeps the parts in order, so the filter keeps the input's order |
| StarTrek.NonEmptySingle | assignment_5/1_star_trek_lda.py:53 | a single string is kept exactly when it is not empty |
| StarTrek.NonEmptyKeepsAll | assignment_5/1_star_trek_lda.py:53 | a list without empty strings is kept unchanged |
| StarTrek.Words | assignment_5/1_star_trek_lda.py:53 | `str.split()` with no argument: the whitespace-separated pieces without the empty ones; characterised by `WordsExact`, `WordsAreWords` and `WordsOfName` |
| StarTrek.WordsExact | assignment_5/1_star_trek_lda.py:53 | the words are the split of the text at maximal whitespace runs, in order, with only an empty first and an empty last piece dropped |
| StarTrek.WordsAreWords | assignment_5/1_star_trek_lda.py:53 | every piece of `str.split()` is non-empty and holds no whitespace |
| StarTrek.TwoWords | assignment_5/1_star_trek_lda.py:53 | two words with whitespace between them split into exactly those two words |
| StarTrek.OneWord | assignment_5/1_star_trek_lda.py:53 | a single word splits into itself |
| StarTrek.EpisodeKey | assignment_5/1_star_trek_lda.py:53 | `episode_name.split()[1]` raises IndexError exactly when the name has fewer than two words |
| StarTrek.WordsOfName | assignment_5/1_star_trek_lda.py:53 | a name of optional leading whitespace, a word, whitespace, a second word and a rest that is empty or starts with whitespace has those two words as its first two words |
| StarTrek.KeyOfName | assignment_5/1_star_trek_lda.py:53 | such a name ("Episode 12", " Episode 12", "Episode 12 Part 2") gets the key: the series name, `_`, then its second word |
| StarTrek.Assignments | assignment_5/1_star_trek_lda.py:40-54 | the `(episode_key, episode_string)` assignments in order, or the first IndexError; characterised by `AssignmentsFail`, `AssignmentsExact` and `AssignmentsErrStays` |
| StarTrek.AssignmentsFail | assignment_5/1_star_trek_lda.py:40-54 | the assembly fails, with IndexError, exactly when some episode name has fewer than two words |
| StarTrek.AssignmentsExact | assignment_5/1_star_trek_lda.py:40-54 | otherwise every episode, in order, assigns its key and its episode string |
| StarTrek.AssignmentsErrStays | assignment_5/1_star_trek_lda.py:40-54 | once an episode has failed, later episodes do not matter |
| StarTrek.AllEpisodesAppend | assignment_5/1_star_trek_lda.py:41-42 | the episodes of consecutive series are those of each series, one series after the other |
| StarTrek.AssembleEpisodes | assignment_5/1_star_trek_lda.py:40-54 | the triple loop raises IndexError when an episode name is too short, and otherwise yields the dictionary built by all assignments in order |
| StarTrek.AddSeries | assignment_5/1_star_trek_lda.py:42-54 | the middle loop adds one series' episodes to the dictionary built so far, or fails as the whole assembly does |
| StarTrek.EpisodeLines | assignment_5/1_star_trek_lda.py:54-57 | `list(episodes.values())` has one text per distinct key, in first-assignment order; each key holds the text of its last assignment |
| StarTrek.TopicRows | assignment_5/1_star_trek_lda.py:109-116 | one row per document, holding the probabilities of its `(topic, probability)` pairs in order |

## Left out

- Mutual information and expected frequency (`calc_exp_freq`, `calc_mut_inf`, lines 53-69 of the collocation script) are floating-point computations and are not modelled.
- Reading files: `glob`, `sample_num` and `open`/`read` are replaced by the list of document contents in reading order.
- Writing the CSV report (`write_csv`) is not modelled.
- The edge file is written and read back through `csv`. The model assumes that this round trip returns the header row followed by the edges. Quoting and escaping are not modelled.
- `\W` and `str.lower` are parameters; no Unicode table is modelled.
- spaCy named-entity recognition (the persons of each text) is input to the network model.
- The pandas data frames are modelled as lists of rows; the weight filter keeps rows in order.
- Drawing with networkx and matplotlib is not modelled.
- JSON parsing in the Star Trek script is not modelled: the input is the parsed data as series, episodes and character blocks in file order.
- The gensim phrase models, dictionary, LDA training, perplexity and coherence are not modelled. The topic probabilities are an abstract type.
- The rolling mean and the plot are not modelled.
- `assignment_3/1_sentiment.py` is not part of this model.
- Window sizes are natural numbers: the command-line option at line 148 accepts any integer. A negative window is not modelled: there the slice bound `i + w + 1` and the index of `pop(w)` can be negative, so Python counts them from the end of the list, or the pop raises IndexError on an empty window.
- Collocation.CollocationCounts: searches for the keyword lower-cased twice, as line 112 does. It states the R1/concordance agreement only when `lower` is idempotent, because `lower` is a parameter. Like `Collocation.CountCollocates`, it uses the corrected anchor removal, so the script's wrong token for occurrences near the corpus start and its IndexError on a corpus of at most `w` tokens are not part of its result; see Findings.
- Collocation.CountCollocates: builds the concordances with the corrected anchor removal. The fixed-index removal as written is `Collocation.PopAnchors`; see Findings.
- Network.WeightedNetwork: states the pipeline over the persons of each text. The lines between named-entity extraction and the edge list are the I/O described above.

## Findings

| source | as written | input that shows it | evidently intended | confidence | as-written member | corrected member |
|---|---|---|---|---|---|---|
| assignment_2/1_collocation.py:118-120 | `conc.pop(window_size)` removes index `w` of every window, but the window of an occurrence at position `i < w` starts at 0, so the keyword sits at index `i` and a context token is removed instead; a corpus of at most `w` tokens raises IndexError | tokens `["cat", "the", "sat"]`, keyword `"cat"`, window 1: the concordance becomes `["cat"]` | remove the occurrence itself, at index `min(i, w)`, giving `["the"]` | not executed | Collocation.PopAnchors, Collocation.PopRemovesWrongToken | Collocation.Concordance |
