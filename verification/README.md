# SmoothLLM character perturbations, modelled in Dafny

SmoothLLM defends a language model against jailbreak prompts by querying it on
several randomly perturbed copies of the prompt. The perturbations live in
`lib/perturbations.py`. Each one is built with an intensity `q`, a percentage,
and with the alphabet `string.printable`. Each one turns a prompt `s` into a
perturbed prompt:

- **swap** replaces the characters at `int(len(s) * q / 100)` sampled
  positions with random alphabet characters. It then *summarizes* the result:
  it keeps the `len(words) // 2` most frequent words, most frequent first, and
  joins them with single spaces;
- **patch** overwrites a run of `int(len(s) * q / 100)` characters, at a
  random start, with random alphabet characters;
- **insert** performs `list.insert(i, c)` once for each sampled index `i`, one
  after the other. Every insert uses the original index, even though earlier
  inserts have already shifted the list.

The model has three modules:

- `Text` covers `str.split()` and `' '.join`. It proves that splitting keeps
  every non-whitespace character in order. It proves that splitting a joined
  list of words gives the words back.
- `Summarizer` covers `Counter`, `most_common` and `summarize`. It proves
  which words the summary keeps, how many, and in which order.
- `Perturbations` covers the alphabet, the width, and the three perturbations.
  The swap perturbation is a method over an array. The patch and insert
  perturbations are methods over the prompt as a sequence. The swap and insert
  methods are proved equal to a specification function (`Swapped`,
  `Inserted`), and the properties are proved about that function; the patch
  method's contract states its result slice by slice.

Random draws are arguments, restricted to what the draw can return:

- `random.sample(range(n), k)` is `k` distinct indices below `n`, in draw
  order (`IsSample`);
- repeated `random.choice(alphabet)` is a string of alphabet characters
  (`FromAlphabet`);
- `random.randint(0, max_start)` is a start between `0` and `max_start`.

## Model

| member | source | states |
|---|---|---|
| Text.Split | lib/perturbations.py:78 | `s.split()`: every piece is a non-empty run without whitespace; with SplitWord, SplitAtWhitespace and SplitKeepsText it is pinned down as the maximal runs, cut at every whitespace character |
| Text.SplitWord | lib/perturbations.py:78 | a non-empty string without whitespace splits into just itself |
| Text.SplitAtWhitespace | lib/perturbations.py:78 | any whitespace character (space, tab, newline, vertical tab, form feed, ...) separates words: `(a + c + b).split() == a.split() + b.split()` |
| Text.Join | lib/perturbations.py:87 | `' '.join(words)` is the words' characters plus exactly one separator between consecutive words; JoinSpaces says the separator is a space, and SplitJoin is its inverse |
| Text.JoinSpaces | lib/perturbations.py:87 | joining words, the only whitespace in the result is the single space `' '.join` puts between them |
| Text.WordLength | lib/perturbations.py:78 | the first word of a string ends at the first whitespace character or at the end of the string, and holds no whitespace |
| Text.SplitKeepsText | lib/perturbations.py:78 | `s.split()` drops only whitespace: its words, concatenated, are exactly the non-whitespace characters of `s`, in order |
| Text.SplitBlank | lib/perturbations.py:78 | `s.split()` is empty exactly when `s` is empty or all whitespace |
| Text.SplitJoin | lib/perturbations.py:78-87 | splitting `' '.join(words)` gives back `words`, for any list of non-empty whitespace-free words |
| Summarizer.Count | lib/perturbations.py:81 | a word's `Counter` count is at most the number of words; CountPositive says when it is positive |
| Summarizer.CountPositive | lib/perturbations.py:81 | a word has a positive count in the `Counter` exactly when it occurs in the input |
| Summarizer.FirstIndex | lib/perturbations.py:81 | the first occurrence of a word: it holds the word, and no earlier position does |
| Summarizer.Distinct | lib/perturbations.py:81 | the `Counter`'s keys have no repeats, and a word is a key exactly when it occurs in the input |
| Summarizer.DistinctInFirstOccurrenceOrder | lib/perturbations.py:81 | the `Counter`'s keys come in the order in which the words first occur |
| Summarizer.Tally | lib/perturbations.py:81 | the `Counter`'s items: one per distinct word, each with its number of occurrences, every input word present, in first-occurrence order |
| Summarizer.InsertByCount | lib/perturbations.py:84 | one insertion step of the stable sort: the result is sorted by descending count and is the input plus the new entry, as a multiset |
| Summarizer.SortByCount | lib/perturbations.py:84 | `most_common()` order: the result is sorted by descending count and is a permutation of the items |
| Summarizer.MostCommon | lib/perturbations.py:84 | `most_common(n)` returns `min(n, #items)` items |
| Summarizer.MostCommonSorted | lib/perturbations.py:84 | the items `most_common(n)` returns are in descending count order, each taken no more often than it occurs (a sub-multiset of the items) |
| Summarizer.MostCommonIsTop | lib/perturbations.py:84 | `most_common(n)` returns the most common items: every item it leaves out has a count no larger than any item it returns |
| Summarizer.SortRanks | lib/perturbations.py:84 | sorting items that are in first-occurrence order ranks them: more occurrences first, and among equal counts the earlier first occurrence first |
| Summarizer.RankingCoversWords | lib/perturbations.py:81-84 | the full `most_common()` word list has one entry per distinct word, and holds exactly the input's words |
| Summarizer.RankingOrder | lib/perturbations.py:81-84 | every word of the full `most_common()` list outranks every word after it |
| Summarizer.Summarize | lib/perturbations.py:73-89 | `summarize(s)`; what it returns is stated by SummaryIsRankingPrefix, SummaryWords, SummaryRanking and SummaryKeepsTopRanked |
| Summarizer.SummaryJoinsRankingPrefix | lib/perturbations.py:84-87 | the summary is the first `min(len(words) // 2, #distinct)` words of the ranking, joined with single spaces |
| Summarizer.SummaryIsRankingPrefix | lib/perturbations.py:73-89 | the summary's words are exactly the first `min(len(words) // 2, #distinct)` words of the ranking |
| Summarizer.SummaryWords | lib/perturbations.py:73-89 | the summary has `min(len(words) // 2, #distinct)` words, so at most half the input's; none repeats; each occurs in the input; a blank input gives `""` |
| Summarizer.SummaryRanking | lib/perturbations.py:84-87 | the summary's words appear in ranking order: each outranks every later one |
| Summarizer.SummaryKeepsTopRanked | lib/perturbations.py:84 | every kept word outranks every input word that was dropped |
| Perturbations.PrintableAlphabet | lib/perturbations.py:69-71 | `string.printable` has 100 characters; its last six are whitespace and the first 94 are not |
| Perturbations.Width | lib/perturbations.py:103 | the width `int(len(s) * q / 100)` is at most the length; it is 0 when `q` is 0, and the full length when `q` is 100 |
| Perturbations.WidthIsFloor | lib/perturbations.py:124 | the width is `len(s) * q / 100` rounded down |
| Perturbations.DrawsWellDefined | lib/perturbations.py:103-126 | for every length and every `q` in 0..100, there is a valid sample of width-many indices, and `max_start` lies between 0 and the length |
| Perturbations.Swapped | lib/perturbations.py:104-105 | the list after the swap loop keeps its length; SwappedAt says which positions hold what |
| Perturbations.SwappedAt | lib/perturbations.py:104-105 | after the swap loop, each sampled position holds the character drawn for it, and every other position is unchanged |
| Perturbations.SwapBeforeSummary | lib/perturbations.py:102-106 | the swapped string has the prompt's length, holds an alphabet character at each sampled position and the prompt's character elsewhere, and equals the prompt when `q` is 0 |
| Perturbations.RandomSwap | lib/perturbations.py:100-111 | the swap perturbation's result is the summary of the swapped string; when `q` is 0 it is the summary of the prompt |
| Perturbations.RandomPatch | lib/perturbations.py:122-131 | the patched string has the prompt's length; the drawn characters sit at `start..start+width`; the rest equals the prompt; width 0 changes nothing; full width gives start 0 and only drawn characters |
| Perturbations.InsertAt | lib/perturbations.py:146 | `list.insert(i, c)`: one longer, `c` at `i`, the part before `i` in place, the rest moved one to the right |
| Perturbations.Inserted | lib/perturbations.py:145-146 | the list after the insert loop, each index applied to the list as earlier inserts left it, grows by one per insert |
| Perturbations.InsertedKeepsOriginal | lib/perturbations.py:145-146 | after all inserts, the prompt is still an ordered subsequence of the result, at the positions the shifts predict |
| Perturbations.InsertedAddsChars | lib/perturbations.py:145-146 | the inserts add exactly the drawn characters and remove none, as a multiset |
| Perturbations.RandomInsert | lib/perturbations.py:142-147 | the insert perturbation is the sequential fold of the inserts; every insert index is in range; the result has length `len(s) + width`; when `q` is 0 it is the prompt |
| Perturbations.InsertOrderMatters | lib/perturbations.py:144-146 | indices are not adjusted for earlier inserts, so the order of the draws changes the result: `"ab"` with x at 0 then y at 1 gives `"xyab"`; with y at 1 then x at 0 it gives `"xayb"` |

## Left out

- The random number generator and the distributions it samples from are not modelled. Draws are arguments constrained to what the draw can return, so nothing is said about uniformity.
- `q` is an integer from 0 to 100. The source computes `int(len(s) * q / 100)` in floating point. For integer `q` in that range the result is the floor, which is what `Width` computes. Non-integer `q`, negative `q`, `q` over 100, and float rounding on huge strings are not modelled.
- Width: `q` outside 0..100 is ruled out by a precondition rather than modelled. In the source the draws only see the truncated width `int(len(s) * q / 100)`, so such a `q` often runs normally: `"a"` with `q = 150` has width 1 and `q = -20` has width 0, and neither raises. Swap and insert fail in `random.sample` (`lib/perturbations.py:103`, `:144`) only when the width is negative or larger than `len(s)`. Patch fails in `random.randint(0, max_start)` (`:126`) only when the width is larger than `len(s)`. A negative width does not fail: the slice assignment at `:130` then deletes characters exactly when `start < -width < len(s)`, because Python counts a negative slice end from the end of the list and clips it at 0 (`"abc"` with `q = -50` has width -1; start 0 gives `"c"`, start 1 leaves `"abc"`; with `q = -100` the width is -3 and no start deletes anything).
- The `Perturbation` class hierarchy is not modelled as classes. Its objects never change after `__init__`, so each perturbation is a method that takes `q`, and the alphabet is the constant `Printable`.
- The commented-out earlier copy of the perturbations at the top of `lib/perturbations.py` is not modelled.
- RandomPatch: the slice assignment `list_s[a:b] = chars` is modelled as a new sequence value built from slices, not as an in-place update of a list.
- RandomInsert: the growing list is a sequence value that the loop reassigns, not an in-place list.
- RandomInsert: `list.insert` clamps an index past the end to the end. The model does not define clamping, because it proves that every index is in range.
- `Counter` and `most_common` are modelled by their observable results. Items come in first-occurrence order, and the sort is stable by descending count. The hash table and `heapq.nlargest` internals are not modelled.
- `str.split()`'s whitespace set follows `str.isspace()` for the characters listed in `Text.IsWhitespace`. Unicode database versions that differ on rarer separators are not modelled.
