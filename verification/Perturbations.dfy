/** The three character-level perturbations. Each copies the string into a
    list, edits the list and joins it back; the swap perturbation then hands
    its result to the summarizer. The random draws (`random.sample`,
    `random.choice`, `random.randint`) are arguments here, constrained to what
    the draw can return. */
module Perturbations {
  import opened Text
  import opened Summarizer

  /** `string.digits`, `string.ascii_lowercase`, `string.ascii_uppercase`, `string.ascii_letters`, `string.punctuation` and
      `string.whitespace`. */
  const Digits: string := "0123456789"
  const AsciiLowercase: string := "abcdefghijklmnopqrstuvwxyz"
  const AsciiUppercase: string := "ABCDEFGHIJKLMNOPQRSTUVWXYZ"
  const AsciiLetters: string := AsciiLowercase + AsciiUppercase
  const Punctuation: string := "!\"#$%&'()*+,-./:;<=>?@[\\]^_`{|}~"
  const WhitespaceChars: string := " \t\n\r\U{B}\U{C}"

  /** `string.printable`, the alphabet every replacement and inserted
      character is drawn from. */
  const Printable: string := Digits + AsciiLetters + Punctuation + WhitespaceChars

  /** A visible ASCII character, from '!' to '~'. */
  predicate IsGraphic(c: char) {
    '!' <= c <= '~'
  }

  predicate AllGraphic(s: string) {
    forall i :: 0 <= i < |s| ==> IsGraphic(s[i])
  }

  lemma GraphicConcat(a: string, b: string)
    requires AllGraphic(a) && AllGraphic(b)
    ensures AllGraphic(a + b)
  {
    assert forall i :: |a| <= i < |a + b| ==> (a + b)[i] == b[i - |a|];
  }

  lemma LettersAreGraphic()
    ensures AllGraphic(AsciiLetters)
  {
    assert AllGraphic(AsciiLowercase);
    assert AllGraphic(AsciiUppercase);
    GraphicConcat(AsciiLowercase, AsciiUppercase);
  }

  lemma PunctuationIsGraphic()
    ensures AllGraphic(Punctuation)
  {
  }

  lemma VisibleCharsAreGraphic()
    ensures AllGraphic(Digits + AsciiLetters + Punctuation)
  {
    assert AllGraphic(Digits);
    LettersAreGraphic();
    GraphicConcat(Digits, AsciiLetters);
    PunctuationIsGraphic();
    GraphicConcat(Digits + AsciiLetters, Punctuation);
  }

  /** The alphabet a perturbation is built with has 100 characters; its last
      six are whitespace and the others are not, so a replaced or inserted
      character can start or end a word. */
  lemma PrintableAlphabet()
    ensures |Printable| == 100
    ensures Printable[94..] == WhitespaceChars && IsBlank(WhitespaceChars)
    ensures forall i :: 0 <= i < 94 ==> !IsWhitespace(Printable[i])
  {
    var visible := Digits + AsciiLetters + Punctuation;
    VisibleCharsAreGraphic();
    assert Printable == visible + WhitespaceChars;
    forall i | 0 <= i < 94 ensures !IsWhitespace(Printable[i]) {
      assert Printable[i] == visible[i];
      assert IsGraphic(visible[i]);
    }
  }

  /** `int(len(s) * q / 100)` for an intensity q between 0 and 100: the
      number of characters a perturbation touches. */
  function Width(n: nat, q: int): (k: nat)
    requires 0 <= q <= 100
    ensures k <= n
    ensures q == 0 ==> k == 0
    ensures q == 100 ==> k == n
  {
    assert n * q <= n * 100;
    n * q / 100
  }

  /** The width is q percent of the length, rounded down. */
  lemma WidthIsFloor(n: nat, q: int)
    requires 0 <= q <= 100
    ensures 100 * Width(n, q) <= n * q < 100 * (Width(n, q) + 1)
  {
  }

  /** The width is never more than the length, so `random.sample(range(n), k)`
      and `random.randint(0, n - k)` always have something to draw from. */
  lemma DrawsWellDefined(n: nat, q: int)
    requires 0 <= q <= 100
    ensures IsSample(seq(Width(n, q), i => i), n, Width(n, q))
    ensures 0 <= n - Width(n, q) <= n
  {
  }

  /** What `random.sample(range(n), k)` can return: k distinct indices below n,
      in draw order. */
  predicate IsSample(indices: seq<int>, n: nat, k: nat) {
    && |indices| == k
    && (forall j :: 0 <= j < k ==> 0 <= indices[j] < n)
    && (forall i, j :: 0 <= i < j < k ==> indices[i] != indices[j])
  }

  /** Characters drawn one by one with `random.choice(Printable)`. */
  predicate FromAlphabet(chars: string) {
    forall j :: 0 <= j < |chars| ==> chars[j] in Printable
  }

  // ---------------------------------------------------------------------------
  // RandomSwapPerturbation

  /** The list after `list[indices[j]] = chars[j]` for j = 0, 1, ... in turn. */
  function Swapped(list: string, indices: seq<int>, chars: string): (r: string)
    requires |chars| == |indices|
    requires forall j :: 0 <= j < |indices| ==> 0 <= indices[j] < |list|
    ensures |r| == |list|
    decreases |indices|
  {
    if indices == [] then list
    else Swapped(list[indices[0] := chars[0]], indices[1..], chars[1..])
  }

  /** Swapping at distinct indices: every sampled position ends up holding the
      character drawn for it, and every other position is unchanged. */
  lemma {:induction false} SwappedAt(list: string, indices: seq<int>, chars: string)
    requires IsSample(indices, |list|, |indices|) && |chars| == |indices|
    ensures forall p :: 0 <= p < |list| && p !in indices ==> Swapped(list, indices, chars)[p] == list[p]
    ensures forall j :: 0 <= j < |indices| ==> Swapped(list, indices, chars)[indices[j]] == chars[j]
    decreases |indices|
  {
    if indices != [] {
      var first := list[indices[0] := chars[0]];
      var rest, restChars := indices[1..], chars[1..];
      SwappedAt(first, rest, restChars);
      var r := Swapped(list, indices, chars);
      assert r == Swapped(first, rest, restChars);
      forall p | 0 <= p < |list| && p !in indices ensures r[p] == list[p] {
        assert p != indices[0] && p !in rest;
      }
      forall j | 0 <= j < |indices| ensures r[indices[j]] == chars[j] {
        if j == 0 {
          assert indices[0] !in rest by {
            forall k | 0 <= k < |rest| ensures rest[k] != indices[0] {
              assert rest[k] == indices[k + 1];
            }
          }
        } else {
          assert rest[j - 1] == indices[j] && restChars[j - 1] == chars[j];
        }
      }
    }
  }

  /** The swap perturbation before summarizing: same length as s, the drawn
      alphabet character at each sampled position, s everywhere else. */
  lemma SwapBeforeSummary(q: int, s: string, indices: seq<int>, chars: string)
    requires 0 <= q <= 100
    requires IsSample(indices, |s|, Width(|s|, q))
    requires |chars| == |indices| && FromAlphabet(chars)
    ensures |Swapped(s, indices, chars)| == |s|
    ensures forall p :: 0 <= p < |s| && p !in indices ==> Swapped(s, indices, chars)[p] == s[p]
    ensures forall j :: 0 <= j < |indices| ==>
      Swapped(s, indices, chars)[indices[j]] == chars[j] && chars[j] in Printable
    ensures q == 0 ==> Swapped(s, indices, chars) == s
  {
    SwappedAt(s, indices, chars);
  }

  /** `RandomSwapPerturbation(q)(s)` with the sampled indices and the drawn
      characters given: the summary of the swapped string. */
  method RandomSwap(q: int, s: string, indices: seq<int>, chars: string) returns (summary: string)
    requires 0 <= q <= 100
    requires IsSample(indices, |s|, Width(|s|, q))
    requires |chars| == |indices| && FromAlphabet(chars)
    ensures summary == Summarize(Swapped(s, indices, chars))
    ensures q == 0 ==> summary == Summarize(s)
  {
    var list := new char[|s|](i requires 0 <= i < |s| => s[i]);
    assert list[..] == s;
    for j := 0 to |indices|
      invariant Swapped(list[..], indices[j..], chars[j..]) == Swapped(s, indices, chars)
    {
      assert indices[j..][1..] == indices[j + 1..] && chars[j..][1..] == chars[j + 1..];
      ghost var was := list[..];
      list[indices[j]] := chars[j];
      assert list[..] == was[indices[j] := chars[j]];
    }
    summary := Summarize(list[..]);
  }

  // ---------------------------------------------------------------------------
  // RandomPatchPerturbation

  /** `RandomPatchPerturbation(q)(s)` with the start drawn by
      `random.randint(0, max_start)` and the patch characters given: the run
      of width characters at start is replaced by the drawn characters, in
      draw order, and the rest of s is kept. */
  method RandomPatch(q: int, s: string, start: int, chars: string) returns (r: string)
    requires 0 <= q <= 100
    requires 0 <= start <= |s| - Width(|s|, q)
    requires |chars| == Width(|s|, q) && FromAlphabet(chars)
    ensures |r| == |s|
    ensures r[..start] == s[..start]
    ensures r[start..start + |chars|] == chars
    ensures r[start + |chars|..] == s[start + |chars|..]
    ensures Width(|s|, q) == 0 ==> r == s
    ensures Width(|s|, q) == |s| ==> start == 0 && r == chars
  {
    var list := s;
    var width := Width(|s|, q);
    var maxStart := |s| - width;
    assert start <= maxStart;
    list := list[..start] + chars + list[start + width..];
    r := list;
    assert width == 0 ==> s == s[..start] + s[start..];
  }

  // ---------------------------------------------------------------------------
  // RandomInsertPerturbation

  /** `list.insert(i, c)` for an index within the list. */
  function InsertAt(list: string, i: int, c: char): (r: string)
    requires 0 <= i <= |list|
    ensures |r| == |list| + 1 && r[i] == c
    ensures forall p :: 0 <= p < i ==> r[p] == list[p]
    ensures forall p :: i <= p < |list| ==> r[p + 1] == list[p]
  {
    list[..i] + [c] + list[i..]
  }

  /** The list after `list.insert(indices[j], chars[j])` for j = 0, 1, ... in
      turn, each applied to the list as the earlier inserts left it. The
      indices are not adjusted for the characters inserted before them. */
  function Inserted(list: string, indices: seq<int>, chars: string): (r: string)
    requires |chars| == |indices|
    requires forall j :: 0 <= j < |indices| ==> 0 <= indices[j] <= |list|
    ensures |r| == |list| + |indices|
    decreases |indices|
  {
    if indices == [] then list
    else Inserted(InsertAt(list, indices[0], chars[0]), indices[1..], chars[1..])
  }

  /** Where characters sit after one insert at i: every position at or after
      i moves one place to the right. */
  function Shift(at: seq<int>, i: int): seq<int> {
    seq(|at|, p requires 0 <= p < |at| => if at[p] >= i then at[p] + 1 else at[p])
  }

  /** Where characters at positions `at` sit after all the inserts. */
  function Placement(at: seq<int>, indices: seq<int>): seq<int>
    decreases |indices|
  {
    if indices == [] then at else Placement(Shift(at, indices[0]), indices[1..])
  }

  /** s sits, in order, at the increasing positions `at` of list. */
  ghost predicate EmbeddedAt(s: string, list: string, at: seq<int>) {
    && |at| == |s|
    && (forall p :: 0 <= p < |s| ==> 0 <= at[p] < |list| && list[at[p]] == s[p])
    && (forall p, p' :: 0 <= p < p' < |s| ==> at[p] < at[p'])
  }

  lemma {:induction false} InsertedKeepsEmbedding(s: string, list: string, at: seq<int>, indices: seq<int>, chars: string)
    requires EmbeddedAt(s, list, at)
    requires |chars| == |indices|
    requires forall j :: 0 <= j < |indices| ==> 0 <= indices[j] <= |list|
    ensures EmbeddedAt(s, Inserted(list, indices, chars), Placement(at, indices))
    decreases |indices|
  {
    if indices != [] {
      var i, c := indices[0], chars[0];
      var next := InsertAt(list, i, c);
      var at' := Shift(at, i);
      forall p | 0 <= p < |s| ensures 0 <= at'[p] < |next| && next[at'[p]] == s[p] {
        if at[p] >= i {
          assert next[at[p] + 1] == list[at[p]];
        } else {
          assert next[at[p]] == list[at[p]];
        }
      }
      InsertedKeepsEmbedding(s, next, at', indices[1..], chars[1..]);
    }
  }

  /** Inserting keeps s as an ordered subsequence of the result: the
      character at position p of s ends up at position
      `Placement([0, ..., |s| - 1], indices)[p]`, and these positions increase. */
  lemma InsertedKeepsOriginal(s: string, indices: seq<int>, chars: string)
    requires |chars| == |indices|
    requires forall j :: 0 <= j < |indices| ==> 0 <= indices[j] <= |s|
    ensures EmbeddedAt(s, Inserted(s, indices, chars), Placement(seq(|s|, p => p), indices))
  {
    InsertedKeepsEmbedding(s, s, seq(|s|, p => p), indices, chars);
  }

  /** Inserting adds exactly the drawn characters and removes nothing. */
  lemma {:induction false} InsertedAddsChars(list: string, indices: seq<int>, chars: string)
    requires |chars| == |indices|
    requires forall j :: 0 <= j < |indices| ==> 0 <= indices[j] <= |list|
    ensures multiset(Inserted(list, indices, chars)) == multiset(list) + multiset(chars)
    decreases |indices|
  {
    if indices != [] {
      var i, c := indices[0], chars[0];
      InsertedAddsChars(InsertAt(list, i, c), indices[1..], chars[1..]);
      InsertAtAddsChar(list, i, c);
      assert chars == [c] + chars[1..];
    }
  }

  lemma InsertAtAddsChar(list: string, i: int, c: char)
    requires 0 <= i <= |list|
    ensures multiset(InsertAt(list, i, c)) == multiset(list) + multiset{c}
  {
    assert list == list[..i] + list[i..];
  }

  /** `RandomInsertPerturbation(q)(s)` with the sampled indices and the drawn
      characters given. Every insert is in range: each index is below |s|, and
      the list never gets shorter than s. */
  method RandomInsert(q: int, s: string, indices: seq<int>, chars: string) returns (r: string)
    requires 0 <= q <= 100
    requires IsSample(indices, |s|, Width(|s|, q))
    requires |chars| == |indices| && FromAlphabet(chars)
    ensures r == Inserted(s, indices, chars)
    ensures |r| == |s| + Width(|s|, q)
    ensures q == 0 ==> r == s
  {
    var list := s;
    for j := 0 to |indices|
      invariant |list| == |s| + j
      invariant Inserted(list, indices[j..], chars[j..]) == Inserted(s, indices, chars)
    {
      assert indices[j..][1..] == indices[j + 1..] && chars[j..][1..] == chars[j + 1..];
      var i := indices[j];
      list := list[..i] + [chars[j]] + list[i..];
    }
    r := list;
  }

  /** The inserts drift: the same draws in another order give another string.
      Inserting in ascending index order drifts (x at 0 then y at 1 into "ab"
      gives "xyab"); only descending order lands each character right before
      its original position ("xayb"). */
  lemma InsertOrderMatters()
    ensures Inserted("ab", [0, 1], "xy") == "xyab"
    ensures Inserted("ab", [1, 0], "yx") == "xayb"
  {
  }
}
