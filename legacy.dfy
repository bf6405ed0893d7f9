/**
 * The older copy of the segmenter, the class `WordSegmentation` in the
 * default package.  It keeps the raw tables and rebuilds the prefix index,
 * together with the summed count of every prefix, on each call of `segment`;
 * it tests overlap with the set-valued `checkIntersection`, and collects the
 * uncovered runs in `nonMeaningfulRange`.  Everything else is the algorithm
 * of the nlp class, and the model reuses those members.
 */
module Legacy {
  import opened JavaUtil
  import opened Positions
  import opened Candidates
  import Components
  import OptimalPath
  import Assembly
  import Segmenter

  /** The three final maps a `WordSegmentation` carries once its word lists are loaded. */
  datatype WordSegmentation = WordSegmentation(
    bigramCounts: map<string, int>,
    unigramCounts: map<string, int>,
    fullUnigramCounts: map<string, int>)

  // ------------------------------------------------------ calculateNgrams

  /** What the unigram `w` adds to the total of the prefix `c`. */
  function Share(counts: map<string, int>, m: nat, c: string, w: string): int {
    if w in counts && |w| >= m && w[..m] == c then counts[w] else 0
  }

  /** Some word of a non-empty set. */
  ghost function Pick(ws: set<string>): (w: string)
    requires ws != {}
    ensures w in ws
  {
    var w :| w in ws; w
  }

  /** The summed count of the words of `ws` whose first `m` characters are `c`. */
  ghost function PrefixSum(counts: map<string, int>, ws: set<string>, m: nat, c: string): int
    decreases ws
  {
    if ws == {} then 0
    else Share(counts, m, c, Pick(ws)) + PrefixSum(counts, ws - {Pick(ws)}, m, c)
  }

  /** The sum does not depend on the order in which the words are taken. */
  lemma {:induction false} PrefixSumRemove(counts: map<string, int>, ws: set<string>, m: nat, c: string, x: string)
    requires x in ws
    ensures PrefixSum(counts, ws, m, c) == Share(counts, m, c, x) + PrefixSum(counts, ws - {x}, m, c)
    decreases ws
  {
    var w := Pick(ws);
    if w != x {
      PrefixSumRemove(counts, ws - {w}, m, c, x);
      PrefixSumRemove(counts, ws - {x}, m, c, w);
      assert ws - {w} - {x} == ws - {x} - {w};
    }
  }

  /** One more word adds its share. */
  lemma PrefixSumAdd(counts: map<string, int>, ws: set<string>, m: nat, c: string, x: string)
    requires x !in ws
    ensures PrefixSum(counts, ws + {x}, m, c) == PrefixSum(counts, ws, m, c) + Share(counts, m, c, x)
  {
    PrefixSumRemove(counts, ws + {x}, m, c, x);
    assert ws + {x} - {x} == ws;
  }

  /** `Map.merge(cut, v, Long::sum)`: `v` for a new key, else the sum with the old value. */
  function MergeSum(dist: map<string, int>, cut: string, v: int): (r: map<string, int>)
    ensures r.Keys == dist.Keys + {cut}
    ensures r[cut] == (if cut in dist then dist[cut] else 0) + v
    ensures forall c :: c in dist && c != cut ==> r[c] == dist[c]
  {
    if cut in dist then dist[cut := dist[cut] + v] else dist[cut := v]
  }

  /** What the distribution knows after the words of `done`. */
  ghost predicate SumsOver(dist: map<string, int>, counts: map<string, int>, done: set<string>, m: nat) {
    (forall c :: c in dist ==> dist[c] == PrefixSum(counts, done, m, c)) &&
    (forall c :: c !in dist ==> PrefixSum(counts, done, m, c) == 0)
  }

  /** Merging the count of one more word keeps the distribution exact. */
  lemma SumsOverStep(dist: map<string, int>, counts: map<string, int>, done: set<string>, m: nat, entry: string)
    requires SumsOver(dist, counts, done, m) && entry !in done && entry in counts
    ensures |entry| >= m ==> SumsOver(MergeSum(dist, entry[..m], counts[entry]), counts, done + {entry}, m)
    ensures |entry| < m ==> SumsOver(dist, counts, done + {entry}, m)
  {
    forall c ensures PrefixSum(counts, done + {entry}, m, c) == PrefixSum(counts, done, m, c) + Share(counts, m, c, entry) {
      PrefixSumAdd(counts, done, m, c, entry);
    }
  }

  /** The two maps of `calculateNgrams` after the unigrams of `done`. */
  ghost predicate NgramsOver(dist: map<string, int>, tree: PrefixTree, counts: map<string, int>, done: set<string>, m: nat) {
    IndexesExactly(tree, done, m) && dist.Keys == tree.Keys && SumsOver(dist, counts, done, m)
  }

  /** Before the loop both maps are empty. */
  lemma NothingFiled(counts: map<string, int>, m: nat)
    ensures NgramsOver(map[], map[], counts, {}, m)
  {
    assert PrefixesOf({}, m) == {};
  }

  /** The body of the `calculateNgrams` loop: files one more unigram and merges its count. */
  method FileUnigram(minLength: nat, unigramCounts: map<string, int>, ghost done: set<string>, entry: string,
                     dist: map<string, int>, tree: PrefixTree)
    returns (dist': map<string, int>, tree': PrefixTree)
    requires NgramsOver(dist, tree, unigramCounts, done, minLength)
    requires entry in unigramCounts && entry !in done
    ensures NgramsOver(dist', tree', unigramCounts, done + {entry}, minLength)
  {
    AddEntryIndexes(tree, done, entry, minLength);
    SumsOverStep(dist, unigramCounts, done, minLength, entry);
    dist', tree' := dist, tree;
    if |entry| >= minLength {
      var cut := entry[..minLength];
      dist' := MergeSum(dist, cut, unigramCounts[entry]);
      if cut !in tree {
        tree' := tree[cut := [entry]];
      } else {
        tree' := tree[cut := tree[cut] + [entry]];
      }
    }
  }

  /**
   * `calculateNgrams(minLength)`: the prefix index of the unigrams, and for
   * every prefix the summed count of the unigrams filed under it.  The two
   * maps have the same keys.
   */
  method CalculateNgrams(minLength: nat, unigramCounts: map<string, int>)
    returns (ngramDistribution: map<string, int>, ngramTree: PrefixTree)
    ensures IndexesExactly(ngramTree, unigramCounts.Keys, minLength)
    ensures TreeShape(ngramTree, minLength)
    ensures forall c, w :: c in ngramTree && w in ngramTree[c] ==> w in unigramCounts
    ensures ngramDistribution.Keys == ngramTree.Keys
    ensures forall c :: c in ngramDistribution ==>
              ngramDistribution[c] == PrefixSum(unigramCounts, unigramCounts.Keys, minLength, c)
  {
    ngramDistribution := map[];
    ngramTree := map[];
    NothingFiled(unigramCounts, minLength);
    var todo := unigramCounts.Keys;
    while todo != {}
      invariant todo <= unigramCounts.Keys
      invariant NgramsOver(ngramDistribution, ngramTree, unigramCounts, unigramCounts.Keys - todo, minLength)
      decreases todo
    {
      var entry :| entry in todo;
      ngramDistribution, ngramTree := FileUnigram(minLength, unigramCounts, unigramCounts.Keys - todo, entry,
                                                  ngramDistribution, ngramTree);
      assert unigramCounts.Keys - todo + {entry} == unigramCounts.Keys - (todo - {entry});
      todo := todo - {entry};
    }
    assert unigramCounts.Keys - todo == unigramCounts.Keys;
    AllFiled(ngramDistribution, ngramTree, unigramCounts, minLength);
  }

  /** After the loop: the index is complete and every total covers all unigrams. */
  lemma AllFiled(dist: map<string, int>, tree: PrefixTree, counts: map<string, int>, m: nat)
    requires NgramsOver(dist, tree, counts, counts.Keys, m)
    ensures TreeShape(tree, m)
    ensures forall c, w :: c in tree && w in tree[c] ==> w in counts
    ensures forall c :: c in dist ==> dist[c] == PrefixSum(counts, counts.Keys, m, c)
  {
    IndexedTreeShape(tree, counts.Keys, m);
    TreeWordsListed(tree, counts.Keys, m);
  }

  /** An index built from `words` lists only words of `words`. */
  lemma TreeWordsListed(tree: PrefixTree, words: set<string>, m: nat)
    requires IndexesExactly(tree, words, m)
    ensures forall c, w :: c in tree && w in tree[c] ==> w in words
  {
    forall c, w | c in tree && w in tree[c] ensures w in words {
      assert w in multiset(tree[c]);
      assert w in multiset(WordsUnder(words, m, c));
    }
  }

  // ---------------------------------------------------- checkIntersection

  /** `IntStream.range(lo, hi + 1)` collected to a set. */
  function IntRange(lo: int, hi: int): (r: set<int>)
    ensures forall i :: i in r <==> lo <= i <= hi
    decreases hi - lo
  {
    if lo > hi then {} else {lo} + IntRange(lo + 1, hi)
  }

  /**
   * `checkIntersection`: the indices of the left range that the right range
   * contains; an index is in it exactly when both inclusive ranges hold it.
   */
  function CheckIntersection(left: Position<string>, right: Position<string>): (r: set<int>)
    ensures forall i :: i in r <==> Covers(left, i) && Covers(right, i)
  {
    IntRange(left.start, left.end) * IntRange(right.start, right.end)
  }

  /** On well-formed positions the set test agrees with the nlp `isNotIntersecting`. */
  lemma CheckIntersectionAgrees(left: Position<string>, right: Position<string>)
    requires left.start <= left.end && right.start <= right.end
    ensures CheckIntersection(left, right) == {} <==> IsNotIntersecting(left, right)
  {
    if !IsNotIntersecting(left, right) {
      var i := if left.start < right.start then right.start else left.start;
      assert i in CheckIntersection(left, right);
    }
  }

  /** The edge of the legacy graph: two different candidates with a non-empty intersection. */
  predicate Edge(a: Candidate, b: Candidate) {
    a != b && CheckIntersection(a.base, b.base) != {}
  }

  /** On candidates with well-formed positions the legacy graph is the nlp one. */
  lemma EdgeAgrees(a: Candidate, b: Candidate)
    requires a.base.start <= a.base.end && b.base.start <= b.base.end
    ensures Edge(a, b) == Components.Edge(a, b)
  {
    CheckIntersectionAgrees(a.base, b.base);
  }

  // -------------------------------------------------- nonMeaningfulRange

  /** Some literal range holds `i`. */
  ghost predicate InSomeRange(pairs: seq<Assembly.Span>, i: int) {
    exists t :: 0 <= t < |pairs| && pairs[t].left <= i <= pairs[t].right
  }

  /**
   * `nonMeaningfulRange`: the runs of the text that no component span
   * covers, in ascending order.  An index of the text lies in a run exactly
   * when it lies in no component span.
   */
  method NonMeaningfulRange(text: string, postComponents: seq<Assembly.Component>)
    returns (pairs: seq<Assembly.Span>)
    ensures forall t :: 0 <= t < |pairs| ==> 0 <= pairs[t].left <= pairs[t].right < |text|
    ensures forall t :: 0 <= t < |pairs| - 1 ==> pairs[t].right < pairs[t + 1].left
    ensures forall i :: 0 <= i < |text| ==> (InSomeRange(pairs, i) <==> !Assembly.InSomeSpan(postComponents, i))
    ensures Assembly.MaximalRuns(pairs, |text|, Assembly.Covered(postComponents))
  {
    var meaningfulIndices := Assembly.MeaningfulIndices(postComponents);
    pairs := Assembly.MissingSegments(text, meaningfulIndices);
    Segmenter.RunsInText(pairs, |text|, meaningfulIndices);
    forall i | 0 <= i < |text|
      ensures InSomeRange(pairs, i) <==> !Assembly.InSomeSpan(postComponents, i)
    {
      Assembly.RunsAndSpansCover(pairs, |text|, postComponents, meaningfulIndices, i);
    }
  }

  // -------------------------------------------------------- optComponent

  /**
   * The middle of the legacy `optComponent`: `opt` on a fresh memo, a null
   * result read as 0, and `path` from the last memo key holding that value.
   */
  method ComponentPath(bigrams: map<string, int>, lst: seq<OptimalPath.Entry>) returns (path: seq<Position<string>>)
    requires OptimalPath.DPTable(lst) && |lst| >= 1
    ensures |path| >= 1
    ensures OptimalPath.DrawnFrom(path, lst) && OptimalPath.Chain(path)
  {
    var j := |lst|;
    var r, memo := OptimalPath.Opt(bigrams, j, lst, map[]);
    OptimalPath.OptValuePresent(bigrams, lst, j);
    var result := if r.None? then 0.0 else r.value;
    var maxV := OptimalPath.TiedKeys(memo, Some(result));
    assert j - 1 in maxV;
    j := maxV[|maxV| - 1] + 1;
    assert maxV[|maxV| - 1] in maxV;
    path := OptimalPath.ReadPath(j, memo, lst);
  }

  /**
   * `optComponent` of the legacy class: `opt` runs the recurrence on a fresh
   * memo, a missing result counts as 0, and `path` rebuilds the chain from
   * the last memo key holding that value.  The triple summarizes the
   * component with the chain `path`: its words come from the component, `e`
   * is its largest end, and a single candidate yields itself.
   */
  method OptComponent(bigrams: map<string, int>, comp: set<Candidate>)
    returns (s: int, e: int, wordList: seq<string>, ghost path: seq<Position<string>>)
    requires comp != {}
    requires forall c :: c in comp ==> c.base.start <= c.base.end
    ensures Segmenter.Summarizes(comp, Assembly.Component(s, e, wordList), path)
    ensures forall t :: 0 <= t < |wordList| ==> exists c :: c in comp && wordList[t] == c.base.ngram
    ensures exists c :: c in comp && c.base.start == s && c.base.ngram == wordList[0]
  {
    var lst := OptimalPath.ComponentTable(comp);
    var chain := ComponentPath(bigrams, lst);
    wordList := OptimalPath.Ngrams(chain);
    s := chain[0].start;
    e := OptimalPath.End(lst[|lst| - 1]);
    OptimalPath.ComponentChain(comp, lst, chain, e);
    path := chain;
    Segmenter.ChainSummarizes(comp, s, e, wordList, path);
    SummaryWords(comp, Assembly.Component(s, e, wordList), path);
  }

  /** The words of a summary are words of the component, the first one at the span's start. */
  lemma SummaryWords(comp: set<Candidate>, x: Assembly.Component, path: seq<Position<string>>)
    requires Segmenter.Summarizes(comp, x, path)
    ensures forall t :: 0 <= t < |x.words| ==> exists c :: c in comp && x.words[t] == c.base.ngram
    ensures exists c :: c in comp && c.base.start == x.start && c.base.ngram == x.words[0]
  {
    forall t | 0 <= t < |x.words| ensures exists c :: c in comp && x.words[t] == c.base.ngram {
      var c :| c in comp && path[t] == c.base;
      assert x.words[t] == c.base.ngram;
    }
    var c0 :| c0 in comp && path[0] == c0.base;
    assert c0.base.start == x.start && c0.base.ngram == x.words[0];
  }

  // ------------------------------------------------------------ segment

  /** A token that is "a", a unigram of the dictionary, or neither. */
  ghost predicate IsDictionaryWord(unigramCounts: map<string, int>, tok: string) {
    tok == "a" || tok in unigramCounts
  }

  /**
   * `segment(minLength, text)` of the legacy class: the prefix index `tree`
   * is rebuilt for `minLength`, and the tokens come out of the same stages
   * as in the nlp class.  On these candidates the graph and the predecessor
   * test built with `checkIntersection` agree with `isNotIntersecting`.  A
   * null or empty input gives no tokens, a non-empty text without candidates
   * is one token, and every token is a dictionary word (or "a") or a stretch
   * of the text.
   */
  method Segment(seg: WordSegmentation, minLength: nat, raw: Option<string>, lowerTrim: string -> string,
                 log10: real -> real)
    returns (returnList: seq<string>, ghost tree: PrefixTree, ghost sets: seq<set<Candidate>>,
             ghost post: seq<Assembly.Component>, ghost paths: seq<seq<Position<string>>>,
             ghost runs: seq<Assembly.Span>)
    requires minLength >= 1
    ensures IndexesExactly(tree, seg.unigramCounts.Keys, minLength)
    ensures Segmenter.Pipeline(minLength, tree, Segmenter.Normalize(raw, lowerTrim),
                               Segmenter.Score(seg.fullUnigramCounts, log10), sets, post, paths, runs, returnList)
    ensures forall a, b :: Components.InSome(sets, a) && Components.InSome(sets, b) ==>
              (Edge(a, b) <==> Components.Edge(a, b)) &&
              (CheckIntersection(a.base, b.base) == {} <==> IsNotIntersecting(a.base, b.base))
    ensures Segmenter.SpansApart(post)
    ensures forall u :: 0 <= u < |post| ==>
              Assembly.SpanOf(post[u]) in Assembly.SpanDic(post) &&
              Assembly.SpanDic(post)[Assembly.SpanOf(post[u])] == post[u].words
    ensures Segmenter.Normalize(raw, lowerTrim) == "" ==> returnList == []
    ensures Segmenter.Normalize(raw, lowerTrim) != "" &&
            (forall c :: !IsCandidate(minLength, Segmenter.Normalize(raw, lowerTrim), tree,
                                      Segmenter.Score(seg.fullUnigramCounts, log10), c)) ==>
              returnList == [Segmenter.Normalize(raw, lowerTrim)]
    ensures forall tok :: tok in returnList ==>
              IsDictionaryWord(seg.unigramCounts, tok) || Segmenter.IsStretch(Segmenter.Normalize(raw, lowerTrim), tok)
  {
    var text := Segmenter.Normalize(raw, lowerTrim);
    var ngramDistribution, ngramTree := CalculateNgrams(minLength, seg.unigramCounts);
    var score := Segmenter.Score(seg.fullUnigramCounts, log10);
    var meaningfulWords := MeaningfulWords(minLength, text, ngramTree, score);
    var components := Components.ConnectedSets(meaningfulWords);
    var postComponents, chains := OptComponents(seg, minLength, text, ngramTree, score, components);
    var nonMeaningfulRanges := NonMeaningfulRange(text, postComponents);
    returnList := Assembly.Assemble(text, nonMeaningfulRanges, postComponents);
    tree, sets, post, paths, runs := ngramTree, components, postComponents, chains, nonMeaningfulRanges;
    Segmenter.TokensOfRender(text, tree, runs, post);
    IndexedWordsAreDictionaryWords(seg, tree, returnList);
    Segmenter.PipelineFacts(minLength, tree, text, score, sets, post, paths, runs, returnList);
    forall a, b | Components.InSome(sets, a) && Components.InSome(sets, b)
      ensures (Edge(a, b) <==> Components.Edge(a, b)) &&
              (CheckIntersection(a.base, b.base) == {} <==> IsNotIntersecting(a.base, b.base))
    {
      CandidateSound(minLength, text, tree, score, a);
      CandidateSound(minLength, text, tree, score, b);
      EdgeAgrees(a, b);
      CheckIntersectionAgrees(a.base, b.base);
    }
  }

  /** The loop of `segment` over the components, with the legacy `optComponent`. */
  method OptComponents(seg: WordSegmentation, minLength: nat, text: string, tree: PrefixTree, score: string -> real,
                       sets: seq<set<Candidate>>)
    returns (postComponents: seq<Assembly.Component>, ghost paths: seq<seq<Position<string>>>)
    requires minLength >= 1 && TreeShape(tree, minLength)
    requires Components.Components(sets)
    requires forall y :: Components.InSome(sets, y) ==> IsCandidate(minLength, text, tree, score, y)
    ensures |postComponents| == |sets| && |paths| == |sets|
    ensures forall u :: 0 <= u < |sets| ==> Segmenter.Summarizes(sets[u], postComponents[u], paths[u])
    ensures forall u, tok :: 0 <= u < |sets| && tok in postComponents[u].words ==> Segmenter.IsIndexedWord(tree, tok)
  {
    postComponents := [];
    paths := [];
    for t := 0 to |sets|
      invariant |postComponents| == t && |paths| == t
      invariant forall u :: 0 <= u < t ==> Segmenter.Summarizes(sets[u], postComponents[u], paths[u])
      invariant forall u, tok :: 0 <= u < t && tok in postComponents[u].words ==> Segmenter.IsIndexedWord(tree, tok)
    {
      var each := sets[t];
      Segmenter.ComponentWellFormed(minLength, tree, text, score, sets, t);
      var s, e, wordList, path := OptComponent(seg.bigramCounts, each);
      Segmenter.ComponentWords(minLength, tree, text, score, sets, t, wordList, path);
      postComponents := postComponents + [Assembly.Component(s, e, wordList)];
      paths := paths + [path];
    }
  }

  /** Words of the rebuilt index are unigrams. */
  lemma IndexedWordsAreDictionaryWords(seg: WordSegmentation, tree: PrefixTree, tokens: seq<string>)
    requires forall c, w :: c in tree && w in tree[c] ==> w in seg.unigramCounts
    ensures forall tok :: tok in tokens && Segmenter.IsIndexedWord(tree, tok) ==> IsDictionaryWord(seg.unigramCounts, tok)
  {
  }
}
