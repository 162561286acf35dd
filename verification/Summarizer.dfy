/** The keyword-frequency summarizer `Perturbation.summarize`: split the text into
    words, count each distinct word (a `Counter`, which keeps first-occurrence
    order), keep the `len(words) // 2` most common ones (`most_common`, a stable
    sort by descending count) and join them with single spaces. */
module Summarizer {
  import opened Text

  /** The number of occurrences of w in words. */
  function Count(words: seq<string>, w: string): (c: nat)
    ensures c <= |words|
  {
    if words == [] then 0
    else (if words[0] == w then 1 else 0) + Count(words[1..], w)
  }

  /** A word is counted at least once exactly when it occurs. */
  lemma {:induction false} CountPositive(words: seq<string>, w: string)
    ensures Count(words, w) > 0 <==> w in words
  {
    if words != [] {
      CountPositive(words[1..], w);
      assert words == [words[0]] + words[1..];
    }
  }

  /** The position of the first occurrence of w in words. */
  function FirstIndex(words: seq<string>, w: string): (i: nat)
    requires w in words
    ensures i < |words| && words[i] == w
    ensures forall k :: 0 <= k < i ==> words[k] != w
  {
    if words[0] == w then 0 else 1 + FirstIndex(words[1..], w)
  }

  /** The distinct words, each at the place of its first occurrence: the key
      order of a `Counter` built from words. */
  function Distinct(words: seq<string>): (d: seq<string>)
    ensures forall i, j :: 0 <= i < j < |d| ==> d[i] != d[j]
    ensures forall w :: w in d <==> w in words
  {
    if words == [] then []
    else
      var prefix := words[..|words| - 1];
      var last := words[|words| - 1];
      assert words == prefix + [last];
      var d := Distinct(prefix);
      if last in d then d else d + [last]
  }

  lemma FirstIndexInPrefix(words: seq<string>, p: nat, w: string)
    requires p <= |words| && w in words[..p]
    ensures FirstIndex(words, w) == FirstIndex(words[..p], w)
  {
    var a := FirstIndex(words[..p], w);
    var b := FirstIndex(words, w);
    assert words[a] == w;
    assert b <= a;
    assert words[..p][b] == words[b];
  }

  /** Distinct lists the words in the order they first occur. */
  lemma {:induction false} DistinctInFirstOccurrenceOrder(words: seq<string>)
    ensures forall i, j :: 0 <= i < j < |Distinct(words)| ==>
      FirstIndex(words, Distinct(words)[i]) < FirstIndex(words, Distinct(words)[j])
  {
    if words != [] {
      var n := |words| - 1;
      var prefix := words[..n];
      var last := words[n];
      assert words == prefix + [last];
      var d := Distinct(prefix);
      DistinctInFirstOccurrenceOrder(prefix);
      forall i | 0 <= i < |d|
        ensures FirstIndex(words, d[i]) == FirstIndex(prefix, d[i]) < n
      {
        FirstIndexInPrefix(words, n, d[i]);
      }
      if last !in d {
        assert FirstIndex(words, last) == n;
        assert Distinct(words) == d + [last];
      }
    }
  }

  /** One item of a `Counter`: a word and its number of occurrences. */
  datatype Entry = Entry(word: string, count: nat)

  /** `Counter(words).items()`: every word of the input exactly once, with its
      number of occurrences, in order of first occurrence. */
  function Tally(words: seq<string>): (t: seq<Entry>)
    ensures |t| == |Distinct(words)|
    ensures forall i :: 0 <= i < |t| ==> t[i].word in words && t[i].count == Count(words, t[i].word)
    ensures forall w :: w in words ==> exists i :: 0 <= i < |t| && t[i].word == w
    ensures forall i, j :: 0 <= i < j < |t| ==>
      FirstIndex(words, t[i].word) < FirstIndex(words, t[j].word)
  {
    var d := Distinct(words);
    DistinctInFirstOccurrenceOrder(words);
    var t := seq(|d|, i requires 0 <= i < |d| => Entry(d[i], Count(words, d[i])));
    assert forall w :: w in words ==> t[FirstIndex(d, w)].word == w;
    t
  }

  predicate ByCountDescending(es: seq<Entry>) {
    forall i, j :: 0 <= i < j < |es| ==> es[i].count >= es[j].count
  }

  /** Places e in front of every entry of sorted whose count is not larger, so
      that e stays ahead of the equal-count entries that came after it in the
      input. */
  function InsertByCount(e: Entry, sorted: seq<Entry>): (r: seq<Entry>)
    requires ByCountDescending(sorted)
    ensures ByCountDescending(r)
    ensures multiset(r) == multiset(sorted) + multiset{e}
    ensures |r| > 0 && (r[0] == e || (sorted != [] && r[0] == sorted[0]))
  {
    if sorted == [] || sorted[0].count <= e.count then
      ConsDescending(e, sorted);
      [e] + sorted
    else
      var rest := InsertByCount(e, sorted[1..]);
      assert sorted == [sorted[0]] + sorted[1..];
      ConsDescending(sorted[0], rest);
      [sorted[0]] + rest
  }

  lemma ConsDescending(x: Entry, es: seq<Entry>)
    requires ByCountDescending(es)
    requires es == [] || x.count >= es[0].count
    ensures ByCountDescending([x] + es)
  {
    var r := [x] + es;
    forall i, j | 0 <= i < j < |r| ensures r[i].count >= r[j].count {
      assert r[j] == es[j - 1];
      if i > 0 {
        assert r[i] == es[i - 1];
      }
    }
  }

  /** `sorted(items, key=count, reverse=True)`: a stable sort by descending count. */
  function SortByCount(es: seq<Entry>): (r: seq<Entry>)
    ensures ByCountDescending(r)
    ensures multiset(r) == multiset(es)
    ensures |r| == |es|
  {
    if es == [] then []
    else
      assert es == [es[0]] + es[1..];
      InsertByCount(es[0], SortByCount(es[1..]))
  }

  /** `Counter.most_common(n)`: the first n entries of the stable descending sort
      (all of them when there are fewer than n). */
  function MostCommon(t: seq<Entry>, n: nat): (r: seq<Entry>)
    ensures |r| == Min(n, |t|)
  {
    var sorted := SortByCount(t);
    sorted[..Min(n, |sorted|)]
  }

  /** The entries `most_common(n)` returns are in descending count order and
      are taken from the items, none more often than it occurs. */
  lemma MostCommonSorted(t: seq<Entry>, n: nat)
    ensures ByCountDescending(MostCommon(t, n))
    ensures multiset(MostCommon(t, n)) <= multiset(t)
  {
    var sorted := SortByCount(t);
    var r := MostCommon(t, n);
    assert sorted == r + sorted[|r|..];
  }

  /** `most_common(n)` returns the most common items: no item it leaves out
      has a larger count than one it returns. */
  lemma MostCommonIsTop(t: seq<Entry>, n: nat)
    ensures forall i, e :: 0 <= i < |MostCommon(t, n)| && e in multiset(t) - multiset(MostCommon(t, n)) ==>
      MostCommon(t, n)[i].count >= e.count
  {
    var sorted := SortByCount(t);
    var r := MostCommon(t, n);
    MostCommonLeavesTail(t, n);
    PrefixOutcounts(sorted, |r|);
    forall i, e | 0 <= i < |r| && e in multiset(t) - multiset(r) ensures r[i].count >= e.count {
      assert e in sorted[|r|..];
      assert r[i] == sorted[i];
    }
  }

  /** In a list sorted by descending count, every entry of a prefix counts at
      least as much as every entry after it. */
  lemma PrefixOutcounts(sorted: seq<Entry>, m: nat)
    requires ByCountDescending(sorted) && m <= |sorted|
    ensures forall i, e :: 0 <= i < m && e in sorted[m..] ==> sorted[i].count >= e.count
  {
    forall i, e | 0 <= i < m && e in sorted[m..] ensures sorted[i].count >= e.count {
      var k :| 0 <= k < |sorted| - m && sorted[m..][k] == e;
      assert sorted[m + k] == e;
    }
  }

  /** What `most_common(n)` leaves out is the rest of the sorted items. */
  lemma MostCommonLeavesTail(t: seq<Entry>, n: nat)
    ensures multiset(t) - multiset(MostCommon(t, n)) == multiset(SortByCount(t)[|MostCommon(t, n)|..])
  {
    var sorted := SortByCount(t);
    var r := MostCommon(t, n);
    var tail := sorted[|r|..];
    assert sorted == r + tail;
    assert multiset(t) == multiset(r) + multiset(tail);
  }

  function Words(es: seq<Entry>): seq<string> {
    seq(|es|, i requires 0 <= i < |es| => es[i].word)
  }

  /** `Perturbation.summarize(s)`. */
  function Summarize(s: string): string {
    var words := Split(s);
    Join(Words(MostCommon(Tally(words), |words| / 2)))
  }

  /** The order the summarizer ranks words in: more occurrences first, and
      among equally frequent words the one that occurs first. */
  predicate Outranks(words: seq<string>, a: string, b: string)
    requires a in words && b in words
  {
    || Count(words, a) > Count(words, b)
    || (Count(words, a) == Count(words, b) && FirstIndex(words, a) < FirstIndex(words, b))
  }

  /** Entries listed in ranking order, each counted correctly. */
  predicate RankOrdered(words: seq<string>, es: seq<Entry>) {
    && (forall i :: 0 <= i < |es| ==> es[i].word in words && es[i].count == Count(words, es[i].word))
    && (forall i, j :: 0 <= i < j < |es| ==> Outranks(words, es[i].word, es[j].word))
  }

  lemma RankOrderedCons(words: seq<string>, x: Entry, es: seq<Entry>)
    requires x.word in words && x.count == Count(words, x.word)
    requires RankOrdered(words, es)
    requires forall k :: 0 <= k < |es| ==> Outranks(words, x.word, es[k].word)
    ensures RankOrdered(words, [x] + es)
  {
    var r := [x] + es;
    forall i, j | 0 <= i < j < |r| ensures Outranks(words, r[i].word, r[j].word) {
      if i == 0 {
        assert r[j] == es[j - 1];
      } else {
        assert r[i] == es[i - 1] && r[j] == es[j - 1];
      }
    }
  }

  /** An entry that outranks e and every entry of tail outranks every entry of
      e inserted into tail. */
  lemma OutranksInserted(words: seq<string>, head: Entry, e: Entry, tail: seq<Entry>)
    requires head.word in words && head.count == Count(words, head.word)
    requires e.word in words && e.count == Count(words, e.word) && head.count > e.count
    requires ByCountDescending(tail)
    requires forall k :: 0 <= k < |tail| ==> tail[k].word in words && Outranks(words, head.word, tail[k].word)
    ensures forall k :: 0 <= k < |InsertByCount(e, tail)| ==>
      InsertByCount(e, tail)[k].word in words && Outranks(words, head.word, InsertByCount(e, tail)[k].word)
  {
    var rest := InsertByCount(e, tail);
    forall k | 0 <= k < |rest| ensures rest[k].word in words && Outranks(words, head.word, rest[k].word) {
      if rest[k] != e {
        assert rest[k] in multiset(rest);
        assert rest[k] in multiset(tail);
        var m :| 0 <= m < |tail| && tail[m] == rest[k];
      }
    }
  }

  lemma {:induction false} InsertKeepsRank(words: seq<string>, e: Entry, sorted: seq<Entry>)
    requires e.word in words && e.count == Count(words, e.word)
    requires ByCountDescending(sorted) && RankOrdered(words, sorted)
    requires forall k :: 0 <= k < |sorted| ==> FirstIndex(words, e.word) < FirstIndex(words, sorted[k].word)
    ensures RankOrdered(words, InsertByCount(e, sorted))
  {
    if sorted == [] || sorted[0].count <= e.count {
      forall k | 0 <= k < |sorted| ensures Outranks(words, e.word, sorted[k].word) {
        assert sorted[k].count <= sorted[0].count;
      }
      RankOrderedCons(words, e, sorted);
    } else {
      var head, tail := sorted[0], sorted[1..];
      forall k | 0 <= k < |tail| ensures tail[k].word in words && Outranks(words, head.word, tail[k].word) {
        assert tail[k] == sorted[k + 1];
      }
      InsertKeepsRank(words, e, tail);
      OutranksInserted(words, head, e, tail);
      RankOrderedCons(words, head, InsertByCount(e, tail));
    }
  }

  /** The stable sort of a first-occurrence-ordered tally lists the words in
      ranking order: ties in count are kept in first-occurrence order. */
  lemma {:induction false} SortRanks(words: seq<string>, es: seq<Entry>)
    requires forall i :: 0 <= i < |es| ==> es[i].word in words && es[i].count == Count(words, es[i].word)
    requires forall i, j :: 0 <= i < j < |es| ==> FirstIndex(words, es[i].word) < FirstIndex(words, es[j].word)
    ensures RankOrdered(words, SortByCount(es))
  {
    if es != [] {
      var rest := SortByCount(es[1..]);
      SortRanks(words, es[1..]);
      forall k | 0 <= k < |rest|
        ensures FirstIndex(words, es[0].word) < FirstIndex(words, rest[k].word)
      {
        assert rest[k] in multiset(es[1..]);
        var m :| 0 <= m < |es[1..]| && es[1..][m] == rest[k];
        assert es[1 + m] == rest[k];
      }
      InsertKeepsRank(words, es[0], rest);
    }
  }

  /** The words of `Counter(words).most_common()` in order. */
  function Ranking(words: seq<string>): seq<string> {
    Words(SortByCount(Tally(words)))
  }

  /** Entries that are a permutation of each other carry the same words. */
  lemma WordsOfPermutation(a: seq<Entry>, b: seq<Entry>)
    requires multiset(a) == multiset(b)
    ensures |Words(a)| == |Words(b)|
    ensures forall w :: w in Words(a) ==> w in Words(b)
  {
    assert |a| == |multiset(a)| == |multiset(b)| == |b|;
    forall w | w in Words(a) ensures w in Words(b) {
      var k :| 0 <= k < |a| && Words(a)[k] == w;
      assert a[k] in multiset(b);
      var m :| 0 <= m < |b| && b[m] == a[k];
      assert Words(b)[m] == w;
    }
  }

  /** The ranking lists every distinct word exactly once. */
  lemma RankingCoversWords(words: seq<string>)
    ensures |Ranking(words)| == |Distinct(words)|
    ensures forall w :: w in Ranking(words) <==> w in words
  {
    var t := Tally(words);
    assert Words(t) == Distinct(words);
    WordsOfPermutation(SortByCount(t), t);
    WordsOfPermutation(t, SortByCount(t));
  }

  /** Each word of the ranking outranks every word after it. */
  lemma RankingOrder(words: seq<string>)
    ensures forall i, j :: 0 <= i < j < |Ranking(words)| ==>
      Ranking(words)[i] in words && Ranking(words)[j] in words &&
      Outranks(words, Ranking(words)[i], Ranking(words)[j])
  {
    var sorted := SortByCount(Tally(words));
    var r := Ranking(words);
    SortRanks(words, Tally(words));
    forall i, j | 0 <= i < j < |r| ensures r[i] in words && r[j] in words && Outranks(words, r[i], r[j]) {
      assert r[i] == sorted[i].word && r[j] == sorted[j].word;
    }
  }

  function Min(a: nat, b: nat): nat {
    if a < b then a else b
  }

  /** Every word of the ranking of a split string is a word. */
  lemma RankedAreWords(s: string)
    ensures forall i :: 0 <= i < |Ranking(Split(s))| ==> IsWord(Ranking(Split(s))[i])
  {
    var words := Split(s);
    var r := Ranking(words);
    RankingCoversWords(words);
    forall i | 0 <= i < |r| ensures IsWord(r[i]) {
      assert r[i] in words;
      var k :| 0 <= k < |words| && words[k] == r[i];
    }
  }

  /** The summary is, word for word, the first `min(len(words) // 2, #distinct)`
      words of the ranking: splitting it gives back exactly the kept words. */
  lemma SummaryIsRankingPrefix(s: string)
    ensures Split(Summarize(s)) == Ranking(Split(s))[..Min(|Split(s)| / 2, |Distinct(Split(s))|)]
  {
    var kept := Ranking(Split(s))[..Min(|Split(s)| / 2, |Distinct(Split(s))|)];
    SummaryJoinsRankingPrefix(s);
    assert forall i :: 0 <= i < |kept| ==> IsWord(kept[i]) by {
      RankedAreWords(s);
    }
    SplitJoin(kept);
  }

  /** The summary is the space-joined prefix of the ranking. */
  lemma SummaryJoinsRankingPrefix(s: string)
    ensures Summarize(s) == Join(Ranking(Split(s))[..Min(|Split(s)| / 2, |Distinct(Split(s))|)])
  {
    var words := Split(s);
    var sorted := SortByCount(Tally(words));
    var m := Min(|words| / 2, |Distinct(words)|);
    assert MostCommon(Tally(words), |words| / 2) == sorted[..m];
    assert Words(sorted[..m]) == Ranking(words)[..m];
  }

  /** What the summary holds: at most half as many words as the input (fewer
      when words repeat), none of them twice, each one a word of the input;
      empty or all-whitespace input gives the empty summary. */
  lemma SummaryWords(s: string)
    ensures |Split(Summarize(s))| == Min(|Split(s)| / 2, |Distinct(Split(s))|)
    ensures |Split(Summarize(s))| <= |Split(s)| / 2
    ensures forall i, j :: 0 <= i < j < |Split(Summarize(s))| ==> Split(Summarize(s))[i] != Split(Summarize(s))[j]
    ensures forall w :: w in Split(Summarize(s)) ==> w in Split(s)
    ensures IsBlank(s) ==> Summarize(s) == ""
  {
    var words := Split(s);
    var kept := Split(Summarize(s));
    var r := Ranking(words);
    SummaryIsRankingPrefix(s);
    RankingCoversWords(words);
    RankingOrder(words);
    forall w | w in kept ensures w in words {
      assert w in r;
    }
    if IsBlank(s) {
      SplitBlank(s);
    }
  }

  /** How the summary ranks: its words come in ranking order. */
  lemma SummaryRanking(s: string)
    ensures forall i, j :: 0 <= i < j < |Split(Summarize(s))| ==>
      Split(Summarize(s))[i] in Split(s) && Split(Summarize(s))[j] in Split(s) &&
      Outranks(Split(s), Split(Summarize(s))[i], Split(Summarize(s))[j])
  {
    var words := Split(s);
    var kept := Split(Summarize(s));
    var r := Ranking(words);
    SummaryIsRankingPrefix(s);
    RankingCoversWords(words);
    RankingOrder(words);
    forall i, j | 0 <= i < j < |kept| ensures kept[i] in words && kept[j] in words && Outranks(words, kept[i], kept[j]) {
      assert kept[i] == r[i] && kept[j] == r[j];
    }
  }

  /** No word of the input that the summary dropped outranks one it kept. */
  lemma SummaryKeepsTopRanked(s: string)
    ensures forall k, d :: k in Split(Summarize(s)) && d in Split(s) && d !in Split(Summarize(s)) ==>
      k in Split(s) && Outranks(Split(s), k, d)
  {
    var words := Split(s);
    var kept := Split(Summarize(s));
    var r := Ranking(words);
    SummaryIsRankingPrefix(s);
    RankingCoversWords(words);
    RankingOrder(words);
    forall k, d | k in kept && d in words && d !in kept
      ensures k in words && Outranks(words, k, d)
    {
      var i :| 0 <= i < |kept| && kept[i] == k;
      assert d in r;
      var j :| 0 <= j < |r| && r[j] == d;
      assert r[i] == k;
    }
  }
}
