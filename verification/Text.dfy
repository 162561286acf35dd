/** Whitespace tokenisation and space-joining of strings, the way Python's
    `str.split()` (no separator given) and `' '.join(...)` do them. */
module Text {

  /** The characters Python's `str.isspace()` accepts; they are the separators
      `str.split()` uses when no separator is given. */
  predicate IsWhitespace(c: char) {
    var n := c as int;
    || (0x09 <= n <= 0x0D)
    || (0x1C <= n <= 0x20)
    || n == 0x85 || n == 0xA0 || n == 0x1680
    || (0x2000 <= n <= 0x200A)
    || n == 0x2028 || n == 0x2029 || n == 0x202F || n == 0x205F || n == 0x3000
  }

  /** A word: a non-empty run of non-whitespace characters. */
  predicate IsWord(w: string) {
    |w| > 0 && forall i :: 0 <= i < |w| ==> !IsWhitespace(w[i])
  }

  predicate IsBlank(s: string) {
    forall i :: 0 <= i < |s| ==> IsWhitespace(s[i])
  }

  /** The length of the longest prefix of s that holds no whitespace. */
  function WordLength(s: string): (n: nat)
    ensures n <= |s|
    ensures forall i :: 0 <= i < n ==> !IsWhitespace(s[i])
    ensures n == |s| || IsWhitespace(s[n])
  {
    if s == [] || IsWhitespace(s[0]) then 0 else 1 + WordLength(s[1..])
  }

  /** `s.split()`: the maximal runs of non-whitespace characters, in order;
      leading, trailing and repeated whitespace produce no empty words. */
  function Split(s: string): (words: seq<string>)
    ensures forall i :: 0 <= i < |words| ==> IsWord(words[i])
    decreases |s|
  {
    if s == [] then []
    else if IsWhitespace(s[0]) then Split(s[1..])
    else
      var n := WordLength(s);
      [s[..n]] + Split(s[n..])
  }

  /** `' '.join(words)`. */
  function Join(words: seq<string>): (r: string)
    ensures |r| == |Concat(words)| + (if words == [] then 0 else |words| - 1)
  {
    if words == [] then ""
    else if |words| == 1 then words[0]
    else words[0] + " " + Join(words[1..])
  }

  /** The only whitespace `' '.join` puts between words is a single space. */
  lemma {:induction false} JoinSpaces(words: seq<string>)
    requires forall i :: 0 <= i < |words| ==> IsWord(words[i])
    ensures forall i :: 0 <= i < |Join(words)| && IsWhitespace(Join(words)[i]) ==> Join(words)[i] == ' '
  {
    if |words| > 1 {
      var w, rest := words[0], Join(words[1..]);
      JoinSpaces(words[1..]);
      var r := Join(words);
      assert r == w + " " + rest;
      forall i | 0 <= i < |r| && IsWhitespace(r[i]) ensures r[i] == ' ' {
        if i > |w| {
          assert r[i] == rest[i - |w| - 1];
        }
      }
    }
  }

  /** The characters of s that are not whitespace, in order. */
  function NonBlank(s: string): string {
    if s == [] then ""
    else (if IsWhitespace(s[0]) then "" else [s[0]]) + NonBlank(s[1..])
  }

  function Concat(words: seq<string>): string {
    if words == [] then "" else words[0] + Concat(words[1..])
  }

  lemma {:induction false} NonBlankAppend(a: string, b: string)
    ensures NonBlank(a + b) == NonBlank(a) + NonBlank(b)
    decreases |a|
  {
    if a == [] {
      assert a + b == b;
    } else {
      assert (a + b)[1..] == a[1..] + b;
      NonBlankAppend(a[1..], b);
    }
  }

  lemma {:induction false} NonBlankOfWord(w: string)
    requires forall i :: 0 <= i < |w| ==> !IsWhitespace(w[i])
    ensures NonBlank(w) == w
    decreases |w|
  {
    if w != [] {
      NonBlankOfWord(w[1..]);
      assert w == [w[0]] + w[1..];
    }
  }

  /** Splitting loses no character other than whitespace and reorders nothing:
      the words, run together, are exactly the non-whitespace characters of s. */
  lemma {:induction false} SplitKeepsText(s: string)
    ensures Concat(Split(s)) == NonBlank(s)
    decreases |s|
  {
    if s == [] {
    } else if IsWhitespace(s[0]) {
      SplitKeepsText(s[1..]);
    } else {
      var n := WordLength(s);
      assert s == s[..n] + s[n..];
      NonBlankAppend(s[..n], s[n..]);
      NonBlankOfWord(s[..n]);
      SplitKeepsText(s[n..]);
    }
  }

  /** A string splits into no words exactly when it is empty or all whitespace. */
  lemma {:induction false} SplitBlank(s: string)
    ensures Split(s) == [] <==> IsBlank(s)
    decreases |s|
  {
    if s != [] && IsWhitespace(s[0]) {
      SplitBlank(s[1..]);
      assert IsBlank(s) <==> IsBlank(s[1..]) by {
        if IsBlank(s[1..]) {
          forall i | 0 <= i < |s| ensures IsWhitespace(s[i]) {
            if i > 0 { assert s[i] == s[1..][i - 1]; }
          }
        }
      }
    }
  }

  /** A word followed by nothing or by whitespace splits off as one word. */
  lemma SplitWordThen(w: string, t: string)
    requires IsWord(w)
    requires t == [] || IsWhitespace(t[0])
    ensures Split(w + t) == [w] + Split(t)
  {
    var s := w + t;
    var n := WordLength(s);
    assert s[0] == w[0];
    assert forall i :: 0 <= i < |w| ==> s[i] == w[i];
    assert |t| > 0 ==> s[|w|] == t[0];
    assert n == |w|;
    assert s[..n] == w && s[n..] == t;
  }

  /** A word on its own splits into just itself. */
  lemma SplitWord(w: string)
    requires IsWord(w)
    ensures Split(w) == [w]
  {
    SplitWordThen(w, "");
    assert w + "" == w;
  }

  /** Where a run of non-whitespace ends inside a, it ends at the same place
      however a is continued. */
  lemma WordLengthExtended(a: string, t: string)
    requires WordLength(a) < |a| || (t != [] && IsWhitespace(t[0]))
    ensures WordLength(a + t) == WordLength(a)
  {
    var s := a + t;
    var n := WordLength(a);
    assert forall i :: 0 <= i < n ==> s[i] == a[i];
    assert n < |s| && IsWhitespace(s[n]) by {
      if n < |a| { assert s[n] == a[n]; } else { assert s[n] == t[0]; }
    }
  }

  /** Every whitespace character separates words: splitting at one of them
      splits the two sides independently. */
  lemma {:induction false} SplitAtWhitespace(a: string, c: char, b: string)
    requires IsWhitespace(c)
    ensures Split(a + [c] + b) == Split(a) + Split(b)
    decreases |a|
  {
    if a == [] {
      assert (a + [c] + b)[1..] == b;
    } else if IsWhitespace(a[0]) {
      assert (a + [c] + b)[1..] == a[1..] + [c] + b;
      SplitAtWhitespace(a[1..], c, b);
    } else {
      var n := WordLength(a);
      SplitAtWhitespace(a[n..], c, b);
      SplitFirstWord(a, [c] + b);
      assert a[n..] + ([c] + b) == a[n..] + [c] + b;
      assert a + ([c] + b) == a + [c] + b;
    }
  }

  /** A string that starts with a word splits off the same first word however
      it is continued by whitespace. */
  lemma SplitFirstWord(a: string, t: string)
    requires a != [] && !IsWhitespace(a[0])
    requires t != [] && IsWhitespace(t[0])
    ensures Split(a + t) == [a[..WordLength(a)]] + Split(a[WordLength(a)..] + t)
  {
    var n := WordLength(a);
    calc {
      Split(a + t);
    == { WordLengthExtended(a, t); assert (a + t)[0] == a[0]; SplitUnfold(a + t); }
      [(a + t)[..n]] + Split((a + t)[n..]);
    == { assert (a + t)[..n] == a[..n] && (a + t)[n..] == a[n..] + t; }
      [a[..n]] + Split(a[n..] + t);
    }
  }

  lemma SplitUnfold(s: string)
    requires s != [] && !IsWhitespace(s[0])
    ensures Split(s) == [s[..WordLength(s)]] + Split(s[WordLength(s)..])
  {
  }

  /** Split undoes Join on words: `' '.join(ws).split() == ws`. */
  lemma {:induction false} SplitJoin(words: seq<string>)
    requires forall i :: 0 <= i < |words| ==> IsWord(words[i])
    ensures Split(Join(words)) == words
  {
    if words == [] {
    } else if |words| == 1 {
      SplitWordThen(words[0], "");
      assert words[0] + "" == words[0];
    } else {
      var rest := Join(words[1..]);
      assert words[0] + " " + rest == words[0] + (" " + rest);
      SplitWordThen(words[0], " " + rest);
      assert (" " + rest)[1..] == rest;
      SplitJoin(words[1..]);
      assert words == [words[0]] + words[1..];
    }
  }
}
