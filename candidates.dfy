/**
 * Candidate generation of the segmenter: the windows of length `minLength`
 * over the text (`cuts`), the prefix index of the dictionary (`ngramTree`),
 * the candidate words found at each window (`meaningfulWords`) and the
 * interval test between candidates (`isNotIntersecting`).
 */
module Candidates {
  import opened JavaUtil
  import opened Positions
  import Collections

  /** `Pair<Position, Double>`: a word at an inclusive range of the text, with its score. */
  type Candidate = ScorePosition<string>

  function StartOf(c: Candidate): int { c.base.start }
  function EndOf(c: Candidate): int { c.base.end }

  /** The prefix index `ngramTree`: prefix of length `minLength` -> dictionary words with that prefix. */
  type PrefixTree = map<string, seq<string>>

  // ---------------------------------------------------------------- windows

  /** Window `k` of the text: prefix `text[k..k+m)`, start `k`, end `k+m`, and the rest of the text. */
  ghost predicate IsWindow(text: string, m: nat, x: SuffixedPosition) {
    var k := x.GetStart();
    0 <= k && k + m <= |text| &&
    x.GetPrefix() == text[k..k + m] && x.GetEnd() == k + m && x.GetSuffix() == text[k + m..]
  }

  /** `cuts`: slides a window of length `minLen` over `word`, one window per offset. */
  method Cuts(minLen: nat, word: string) returns (xs: seq<SuffixedPosition>)
    ensures |xs| == if |word| >= minLen then |word| - minLen + 1 else 0
    ensures forall k :: 0 <= k < |xs| ==> xs[k].GetStart() == k && IsWindow(word, minLen, xs[k])
    ensures forall k :: 0 <= k < |xs| ==> xs[k].GetPrefix() + xs[k].GetSuffix() == word[k..]
  {
    xs := [];
    var counter := 0;
    var i := minLen;
    while i < |word| + 1
      invariant minLen <= i && counter == i - minLen && |xs| == counter
      invariant counter == 0 || i <= |word| + 1
      invariant forall k :: 0 <= k < |xs| ==> xs[k].GetStart() == k && IsWindow(word, minLen, xs[k])
      decreases |word| + 1 - i
    {
      var x := NewSuffixedPosition(word[counter..i], counter, counter + minLen, word[i..|word|]);
      assert IsWindow(word, minLen, x);
      xs := xs + [x];
      counter := counter + 1;
      i := i + 1;
    }
    forall k | 0 <= k < |xs| ensures xs[k].GetPrefix() + xs[k].GetSuffix() == word[k..] {
      assert IsWindow(word, minLen, xs[k]);
      assert word[k..k + minLen] + word[k + minLen..] == word[k..];
    }
  }

  // ------------------------------------------------------------ prefix tree

  /** The words of `words` that are at least `m` long and begin with `c`. */
  ghost function WordsUnder(words: set<string>, m: nat, c: string): set<string> {
    set w | w in words && |w| >= m && w[..m] == c
  }

  /** The prefixes of length `m` of the words of `words` that are at least `m` long. */
  ghost function PrefixesOf(words: set<string>, m: nat): set<string> {
    set w | w in words && |w| >= m :: w[..m]
  }

  /** `tree` lists under each prefix exactly the words of `words` with that prefix, each once. */
  ghost predicate IndexesExactly(tree: PrefixTree, words: set<string>, m: nat) {
    tree.Keys == PrefixesOf(words, m) &&
    forall c :: c in tree ==> multiset(tree[c]) == multiset(WordsUnder(words, m, c))
  }

  /** Every key is `m` long, and every word listed under a key is at least `m` long and begins with it. */
  ghost predicate TreeShape(tree: PrefixTree, m: nat) {
    forall c :: c in tree ==> |c| == m && forall w :: w in tree[c] ==> |w| >= m && w[..m] == c
  }

  /** One iteration of the `ngramTree` loop: files `entry` under its prefix when it is long enough. */
  function AddEntry(tree: PrefixTree, entry: string, m: nat): PrefixTree {
    if |entry| >= m then
      var cut := entry[..m];
      if cut !in tree then tree[cut := [entry]] else tree[cut := tree[cut] + [entry]]
    else tree
  }

  /** Filing one more word keeps the list under one key exact. */
  lemma AddEntryAt(tree: PrefixTree, done: set<string>, entry: string, m: nat, c: string)
    requires IndexesExactly(tree, done, m) && entry !in done
    requires c in AddEntry(tree, entry, m)
    ensures multiset(AddEntry(tree, entry, m)[c]) == multiset(WordsUnder(done + {entry}, m, c))
  {
    var t := AddEntry(tree, entry, m);
    if |entry| >= m && c == entry[..m] {
      assert WordsUnder(done + {entry}, m, c) == WordsUnder(done, m, c) + {entry};
      assert entry !in WordsUnder(done, m, c);
      if c in tree {
        assert multiset(t[c]) == multiset(tree[c]) + multiset{entry};
      } else {
        assert WordsUnder(done, m, c) == {};
      }
    } else {
      assert WordsUnder(done + {entry}, m, c) == WordsUnder(done, m, c);
    }
  }

  /** Filing one more word keeps the index exact. */
  lemma AddEntryIndexes(tree: PrefixTree, done: set<string>, entry: string, m: nat)
    requires IndexesExactly(tree, done, m) && entry !in done
    ensures IndexesExactly(AddEntry(tree, entry, m), done + {entry}, m)
  {
    var t := AddEntry(tree, entry, m);
    if |entry| >= m {
      assert PrefixesOf(done + {entry}, m) == PrefixesOf(done, m) + {entry[..m]};
    } else {
      assert PrefixesOf(done + {entry}, m) == PrefixesOf(done, m);
    }
    forall c | c in t ensures multiset(t[c]) == multiset(WordsUnder(done + {entry}, m, c)) {
      AddEntryAt(tree, done, entry, m, c);
    }
  }

  /** An exact index has the tree shape and lists every long enough word under its own prefix. */
  lemma {:induction false} IndexedTreeShape(tree: PrefixTree, words: set<string>, m: nat)
    requires IndexesExactly(tree, words, m)
    ensures TreeShape(tree, m)
    ensures forall w :: w in words && |w| >= m ==> w[..m] in tree && w in tree[w[..m]]
    ensures forall c, w :: c in tree && w in tree[c] ==> w in words
  {
    forall c | c in tree ensures |c| == m && forall w :: w in tree[c] ==> |w| >= m && w[..m] == c && w in words {
      var w0 :| w0 in words && |w0| >= m && w0[..m] == c;
      forall w | w in tree[c] ensures |w| >= m && w[..m] == c && w in words {
        assert w in multiset(tree[c]);
      }
    }
    forall w | w in words && |w| >= m ensures w[..m] in tree && w in tree[w[..m]] {
      assert w[..m] in PrefixesOf(words, m);
      assert w in multiset(WordsUnder(words, m, w[..m]));
    }
  }

  /**
   * `ngramTree`: groups every dictionary word at least `minLength` long under
   * its first `minLength` characters.  The entries are visited in the map's
   * iteration order, which only decides the order of each list.
   */
  method NgramTree(minLength: nat, unigramCounts: map<string, int>) returns (tree: PrefixTree)
    ensures IndexesExactly(tree, unigramCounts.Keys, minLength)
    ensures TreeShape(tree, minLength)
    ensures forall w :: w in unigramCounts && |w| >= minLength ==> w[..minLength] in tree && w in tree[w[..minLength]]
    ensures forall c, w :: c in tree && w in tree[c] ==> w in unigramCounts
  {
    tree := map[];
    var todo := unigramCounts.Keys;
    while todo != {}
      invariant todo <= unigramCounts.Keys
      invariant IndexesExactly(tree, unigramCounts.Keys - todo, minLength)
      decreases todo
    {
      var entry :| entry in todo;
      AddEntryIndexes(tree, unigramCounts.Keys - todo, entry, minLength);
      assert unigramCounts.Keys - todo + {entry} == unigramCounts.Keys - (todo - {entry});
      if |entry| >= minLength {
        var cut := entry[..minLength];
        if cut !in tree {
          tree := tree[cut := [entry]];
        } else {
          tree := tree[cut := tree[cut] + [entry]];
        }
      }
      todo := todo - {entry};
    }
    IndexedTreeShape(tree, unigramCounts.Keys, minLength);
  }

  // ------------------------------------------------------------- candidates

  /** `String.contains`: `needle` occurs somewhere in `hay`. */
  predicate Contains(hay: string, needle: string)
    decreases |hay|
  {
    |needle| <= |hay| && (hay[..|needle|] == needle || (hay != [] && Contains(hay[1..], needle)))
  }

  /** A needle the haystack contains is no longer than the haystack. */
  lemma ContainsFits(hay: string, needle: string)
    requires Contains(hay, needle)
    ensures |needle| <= |hay|
  {
  }

  /** `("a", k, k)`: the single-letter candidate emitted at every window that begins with 'a'. */
  function ACandidate(k: int, score: string -> real): Candidate {
    ScorePosition(Position("a", k, k + |"a"| - 1), score("a"))
  }

  /** The dictionary word `w` placed at offset `k`, with its inclusive end. */
  function WordAt(w: string, k: int, score: string -> real): Candidate {
    ScorePosition(Position(w, k, k + |w| - 1), score(w))
  }

  /**
   * What is emitted at the window starting at `start` whose prefix lists
   * `list`: the "a" candidate when the window begins with 'a', and every
   * listed word that the text spells at `start`.
   */
  ghost predicate EmitsAt(text: string, start: int, list: seq<string>, score: string -> real, d: Candidate) {
    d.base.start == start && 0 <= start &&
    ((start < |text| && text[start] == 'a' && d == ACandidate(start, score)) ||
     (d == WordAt(d.base.ngram, start, score) && d.base.ngram in list &&
      start + |d.base.ngram| <= |text| && text[start..start + |d.base.ngram|] == d.base.ngram))
  }

  /**
   * The candidates of `meaningfulWords`, stated directly: what is emitted at
   * an offset `k` whose window of length `m` is a key of the tree.
   */
  ghost predicate IsCandidate(m: nat, text: string, tree: PrefixTree, score: string -> real, c: Candidate) {
    var k := c.base.start;
    0 <= k && k + m <= |text| && text[k..k + m] in tree && EmitsAt(text, k, tree[text[k..k + m]], score, c)
  }

  /** The words emitted at one window `x`, which lists `list` under its prefix. */
  method WindowWords(m: nat, text: string, x: SuffixedPosition, list: seq<string>, score: string -> real)
    returns (out: seq<Candidate>)
    requires m >= 1 && IsWindow(text, m, x)
    ensures forall d :: d in out <==> EmitsAt(text, x.GetStart(), list, score, d)
  {
    var start := x.GetStart();
    var recovered := x.GetPrefix() + x.GetSuffix();
    assert text[start..start + m] + text[start + m..] == text[start..];
    assert recovered == text[start..];
    var c := x.GetPrefix()[0];
    out := [];
    if 'a' == c {
      out := out + [ACandidate(start, score)];
    }
    for t := 0 to |list|
      invariant forall d :: d in out <==> EmitsAt(text, start, list[..t], score, d)
    {
      var word := list[t];
      if Contains(recovered, word) {
        ContainsFits(recovered, word);
        if text[start..start + |word|] == word {
          out := out + [WordAt(word, start, score)];
        }
      } else {
        assert !(start + |word| <= |text| && text[start..start + |word|] == word);
      }
      assert list[..t + 1] == list[..t] + [word];
    }
    assert list[..|list|] == list;
  }

  /** At a window whose prefix is a key, the candidates starting there are exactly what the window emits. */
  lemma CandidateAtWindow(m: nat, text: string, tree: PrefixTree, score: string -> real, x: SuffixedPosition, c: Candidate)
    requires IsWindow(text, m, x) && x.GetPrefix() in tree
    ensures (IsCandidate(m, text, tree, score, c) && c.base.start == x.GetStart()) <==>
            EmitsAt(text, x.GetStart(), tree[x.GetPrefix()], score, c)
  {
  }

  /** The keys-of-the-tree windows of the text, last offset first. */
  method CandidateWindows(m: nat, text: string, tree: PrefixTree) returns (candidateList: seq<SuffixedPosition>)
    ensures forall x :: x in candidateList <==> IsWindow(text, m, x) && x.GetPrefix() in tree
  {
    var cuts := Cuts(m, text);
    var forward: seq<SuffixedPosition> := [];
    for i := 0 to |cuts|
      invariant forall x :: x in forward <==> x in cuts[..i] && x.GetPrefix() in tree
    {
      if cuts[i].GetPrefix() in tree {
        forward := forward + [cuts[i]];
      }
      assert cuts[..i + 1] == cuts[..i] + [cuts[i]];
    }
    assert cuts[..|cuts|] == cuts;
    candidateList := Collections.Reverse(forward);
    forall x ensures x in candidateList <==> IsWindow(text, m, x) && x.GetPrefix() in tree {
      Collections.ReverseMembers(forward, x);
      if IsWindow(text, m, x) {
        assert x == cuts[x.GetStart()];
      }
    }
  }

  /**
   * `meaningfulWords`: the candidate words of `text`, stable-sorted by start.
   * A word is emitted exactly when it is a candidate in the sense of `IsCandidate`.
   */
  method MeaningfulWords(minLength: nat, text: string, tree: PrefixTree, score: string -> real)
    returns (words: seq<Candidate>)
    requires minLength >= 1
    ensures Collections.SortedBy(words, StartOf)
    ensures forall c :: c in words <==> IsCandidate(minLength, text, tree, score, c)
  {
    var candidateList := CandidateWindows(minLength, text, tree);
    var emitted: seq<Candidate> := [];
    ghost var done: set<int> := {};
    for i := 0 to |candidateList|
      invariant done == set t | 0 <= t < i :: candidateList[t].GetStart()
      invariant forall c :: c in emitted <==> IsCandidate(minLength, text, tree, score, c) && c.base.start in done
    {
      var x := candidateList[i];
      assert x in candidateList;
      var out := WindowWords(minLength, text, x, tree[x.GetPrefix()], score);
      forall c ensures c in emitted + out <==>
                       IsCandidate(minLength, text, tree, score, c) && c.base.start in done + {x.GetStart()} {
        CandidateAtWindow(minLength, text, tree, score, x, c);
      }
      emitted := emitted + out;
      done := done + {x.GetStart()};
    }
    forall c | IsCandidate(minLength, text, tree, score, c) ensures c.base.start in done {
      var k := c.base.start;
      var w := NewSuffixedPosition(text[k..k + minLength], k, k + minLength, text[k + minLength..]);
      assert w in candidateList;
      var t :| 0 <= t < |candidateList| && candidateList[t] == w;
    }
    words := Collections.SortBy(emitted, StartOf);
    forall c ensures c in words <==> c in emitted {
      Collections.SortByMembers(emitted, StartOf, c);
    }
  }

  /**
   * Every candidate lies inside the text and spells its word there, whether
   * it is a dictionary word or the "a" candidate.
   */
  lemma CandidateSound(minLength: nat, text: string, tree: PrefixTree, score: string -> real, c: Candidate)
    requires minLength >= 1 && TreeShape(tree, minLength)
    requires IsCandidate(minLength, text, tree, score, c)
    ensures 0 <= c.base.start <= c.base.end < |text|
    ensures c.base.end == c.base.start + |c.base.ngram| - 1
    ensures text[c.base.start..c.base.start + |c.base.ngram|] == c.base.ngram
    ensures c.GetScore() == score(c.base.ngram)
  {
    var k := c.base.start;
    if k < |text| && text[k] == 'a' && c == ACandidate(k, score) {
      assert text[k..k + 1] == [text[k]];
    } else {
      assert c.base.ngram in tree[text[k..k + minLength]];
    }
  }

  /**
   * Conversely, every tree word that the text spells at an offset whose
   * window is a key of the tree, is a candidate.
   */
  lemma CandidateComplete(minLength: nat, text: string, tree: PrefixTree, score: string -> real, k: int, w: string)
    requires 0 <= k && k + minLength <= |text| && text[k..k + minLength] in tree
    requires w in tree[text[k..k + minLength]] && k + |w| <= |text| && text[k..k + |w|] == w
    ensures IsCandidate(minLength, text, tree, score, WordAt(w, k, score))
  {
  }

  // ------------------------------------------------------------- intervals

  /** Index `i` lies in the inclusive range of `p`. */
  predicate Covers(p: Position<string>, i: int) {
    p.start <= i <= p.end
  }

  /**
   * `isNotIntersecting`: true exactly when no index lies in both inclusive
   * ranges (for well-formed ranges, the later start is then a shared index).
   */
  predicate IsNotIntersecting(left: Position<string>, right: Position<string>): (r: bool)
    ensures r ==> forall i :: !(Covers(left, i) && Covers(right, i))
    ensures left.start <= left.end && right.start <= right.end && !r ==>
              var i := if left.start < right.start then right.start else left.start;
              Covers(left, i) && Covers(right, i)
  {
    right.end < left.start || right.start > left.end
  }

  /** The interval test is symmetric and is false for a well-formed position and itself. */
  lemma IsNotIntersectingMeaning(left: Position<string>, right: Position<string>)
    ensures IsNotIntersecting(left, right) == IsNotIntersecting(right, left)
    ensures left.start <= left.end ==> !IsNotIntersecting(left, left)
  {
  }
}
