/**
 * The segmenter object of `vision.trademark.nlp.WordSegmentation`: its
 * tables, fixed at construction, the unigram score it derives from them, the
 * normalisation of the input and `segment`, which strings the pipeline
 * together.
 */
module Segmenter {
  import opened JavaUtil
  import opened Positions
  import opened Candidates
  import Components
  import OptimalPath
  import Assembly

  /**
   * The four final fields: the bigram counts, the full unigram counts, the
   * prefix index of the pruned unigram list, and the window length.
   */
  datatype WordSegmentation = WordSegmentation(
    bigramCounts: map<string, int>,
    fullUnigramCounts: map<string, int>,
    ngramTree: PrefixTree,
    minLength: nat)

  /** What `segment` relies on: a positive window length and a well-shaped prefix index. */
  ghost predicate Valid(seg: WordSegmentation) {
    seg.minLength >= 1 && TreeShape(seg.ngramTree, seg.minLength)
  }

  /**
   * The constructor, with the three word lists already loaded: the prefix
   * index is built once, for the one window length the object supports.
   */
  method NewWordSegmentation(minLength: nat, bigrams: map<string, int>, fullUnigrams: map<string, int>,
                             unigrams: map<string, int>)
    returns (seg: WordSegmentation)
    ensures seg.bigramCounts == bigrams && seg.fullUnigramCounts == fullUnigrams && seg.minLength == minLength
    ensures IndexesExactly(seg.ngramTree, unigrams.Keys, minLength)
    ensures minLength >= 1 ==> Valid(seg)
  {
    var tree := NgramTree(minLength, unigrams);
    seg := WordSegmentation(bigrams, fullUnigrams, tree, minLength);
  }

  // ------------------------------------------------------ getUnigramScore

  /** `Math.pow(10, k)` for a natural exponent. */
  function Pow10(k: nat): (r: real)
    ensures r >= 1.0
  {
    if k == 0 then 1.0 else 10.0 * Pow10(k - 1)
  }

  /** Larger exponents give larger powers. */
  lemma {:induction false} Pow10Increasing(j: nat, k: nat)
    requires j < k
    ensures Pow10(j) < Pow10(k)
    decreases k
  {
    if j < k - 1 {
      Pow10Increasing(j, k - 1);
    }
  }

  /**
   * `getUnigramScore`: the base-10 logarithm of a known word's relative
   * frequency; an unknown word scores `log10(10) - log10(total * 10^length)`.
   * `log10` stands for `Math.log10`.  With an increasing logarithm, a known
   * word rarer than the whole corpus scores below zero.
   */
  function UnigramScore(fullUnigramCounts: map<string, int>, log10: real -> real, word: string): (r: real)
    ensures (forall x, y :: 0.0 < x < y ==> log10(x) < log10(y)) ==>
              word in fullUnigramCounts && 0 < fullUnigramCounts[word] < 1024908267229 ==> r < 0.0
  {
    var scale := log10(1024908267229.0);
    if word in fullUnigramCounts then log10(fullUnigramCounts[word] as real) - scale
    else log10(10.0) - (scale + log10(Pow10(|word|)))
  }

  /** With an increasing logarithm, a longer unknown word scores strictly lower. */
  lemma UnknownWordPenalty(fullUnigramCounts: map<string, int>, log10: real -> real, w1: string, w2: string)
    requires forall x, y :: 0.0 < x < y ==> log10(x) < log10(y)
    requires w1 !in fullUnigramCounts && w2 !in fullUnigramCounts && |w1| < |w2|
    ensures UnigramScore(fullUnigramCounts, log10, w2) < UnigramScore(fullUnigramCounts, log10, w1)
  {
    Pow10Increasing(|w1|, |w2|);
  }

  /** With an increasing logarithm, of two known words the more frequent scores higher. */
  lemma KnownWordOrder(fullUnigramCounts: map<string, int>, log10: real -> real, w1: string, w2: string)
    requires forall x, y :: 0.0 < x < y ==> log10(x) < log10(y)
    requires w1 in fullUnigramCounts && w2 in fullUnigramCounts
    requires 0 < fullUnigramCounts[w1] < fullUnigramCounts[w2]
    ensures UnigramScore(fullUnigramCounts, log10, w1) < UnigramScore(fullUnigramCounts, log10, w2)
  {
  }

  // ------------------------------------------------------------ the input

  /** `replaceAll("'", "")`. */
  function RemoveApostrophes(s: string): (r: string)
    ensures forall ch :: ch in r <==> ch in s && ch != '\''
    ensures '\'' !in s ==> r == s
  {
    if s == [] then []
    else (if s[0] == '\'' then [] else [s[0]]) + RemoveApostrophes(s[1..])
  }

  /**
   * The text `segment` works on: null becomes the empty string, anything
   * else is lower-cased and trimmed (`lowerTrim`) and loses its apostrophes.
   */
  function Normalize(raw: Option<string>, lowerTrim: string -> string): (text: string)
    ensures raw.None? ==> text == ""
    ensures '\'' !in text
  {
    if raw.None? then "" else RemoveApostrophes(lowerTrim(raw.value))
  }

  // -------------------------------------------------------------- segment

  /** A token that comes from a candidate: the "a" candidate or a word of the prefix index. */
  ghost predicate IsIndexedWord(tree: PrefixTree, tok: string) {
    tok == "a" || exists c :: c in tree && tok in tree[c]
  }

  /** The characters of `text` from `l` to `r`, both included. */
  function Stretch(text: string, l: int, r: int): (piece: string)
    requires 0 <= l <= r < |text|
    ensures |piece| == r - l + 1 && forall k :: 0 <= k < |piece| ==> piece[k] == text[l + k]
  {
    text[l..r + 1]
  }

  /** A token that is a non-empty stretch of the text. */
  ghost predicate IsStretch(text: string, tok: string) {
    exists l, r :: 0 <= l <= r < |text| && tok == Stretch(text, l, r)
  }

  /** The unigram score `segment` hands to `meaningfulWords`. */
  function Score(fullUnigramCounts: map<string, int>, log10: real -> real): string -> real {
    (w: string) => UnigramScore(fullUnigramCounts, log10, w)
  }

  /**
   * What `segment` keeps of one component `comp`: the span `[start, end]`
   * and the words of a chain `path` of the component's candidates, in
   * reading order and without overlaps.  The chain opens the span, the span
   * closes at the largest end in the component, and a single candidate
   * stands for itself.
   */
  ghost predicate Summarizes(comp: set<Candidate>, x: Assembly.Component, path: seq<Position<string>>) {
    && |path| >= 1 && |x.words| == |path|
    && (forall t :: 0 <= t < |path| ==> x.words[t] == path[t].ngram)
    && (forall t :: 0 <= t < |path| ==> exists c :: c in comp && path[t] == c.base)
    && OptimalPath.Chain(path)
    && x.start == path[0].start && x.start <= x.end
    && (forall c :: c in comp ==> c.base.end <= x.end)
    && (exists c :: c in comp && c.base.end == x.end)
    && (forall t :: 0 <= t < |path| ==> x.start <= path[t].start <= path[t].end <= x.end)
    && (forall c :: c in comp && |comp| == 1 ==> path == [c.base] && x.words == [c.base.ngram])
  }

  /** The facts `optComponent` establishes about its triple and chain make a summary. */
  lemma ChainSummarizes(comp: set<Candidate>, s: int, e: int, wordList: seq<string>, path: seq<Position<string>>)
    requires |path| >= 1 && |wordList| == |path|
    requires forall t :: 0 <= t < |path| ==> wordList[t] == path[t].ngram
    requires forall t :: 0 <= t < |path| ==> exists c :: c in comp && path[t] == c.base
    requires OptimalPath.Chain(path)
    requires s == path[0].start && s <= e
    requires forall c :: c in comp ==> c.base.end <= e
    requires exists c :: c in comp && c.base.end == e
    requires forall t :: 0 <= t < |path| ==> s <= path[t].start <= path[t].end <= e
    requires forall c :: c in comp && |comp| == 1 ==> path == [c.base]
    ensures Summarizes(comp, Assembly.Component(s, e, wordList), path)
  {
    forall c | c in comp && |comp| == 1 ensures wordList == [c.base.ngram] {
      assert path == [c.base];
    }
  }

  /**
   * The stages of `segment` on `text`: `sets` are the connected components
   * of the overlap graph on the candidates, `post[u]` with the chain
   * `paths[u]` summarizes `sets[u]`, `runs` are the maximal runs of indices
   * no component span covers, and `tokens` renders runs and component spans
   * in ascending start order.
   */
  ghost predicate Pipeline(minLength: nat, tree: PrefixTree, text: string, score: string -> real,
                           sets: seq<set<Candidate>>, post: seq<Assembly.Component>,
                           paths: seq<seq<Position<string>>>, runs: seq<Assembly.Span>, tokens: seq<string>) {
    && Components.Components(sets)
    && (forall y :: Components.InSome(sets, y) <==> IsCandidate(minLength, text, tree, score, y))
    && |post| == |sets| && |paths| == |sets|
    && (forall u :: 0 <= u < |sets| ==> Summarizes(sets[u], post[u], paths[u]))
    && Assembly.MaximalRuns(runs, |text|, Assembly.Covered(post))
    && Assembly.LiteralsInBounds(text, Assembly.SpanDic(post), Assembly.Order(runs, post))
    && tokens == Assembly.Render(text, Assembly.SpanDic(post), Assembly.Order(runs, post))
  }

  /** No two component spans share an index. */
  ghost predicate SpansApart(post: seq<Assembly.Component>) {
    forall u, v :: 0 <= u < |post| && 0 <= v < |post| && u != v ==>
      post[u].end < post[v].start || post[v].end < post[u].start
  }

  /**
   * `segment(text)`: the tokens of the normalised text, through the stages
   * of `Pipeline`.  The component spans do not overlap, so each is rendered
   * with its own component's words.  A null or empty input gives no tokens,
   * a non-empty text without candidates is a single token, and every token
   * is a word of a candidate or a stretch of the text.
   */
  method Segment(seg: WordSegmentation, raw: Option<string>, lowerTrim: string -> string, log10: real -> real)
    returns (returnList: seq<string>, ghost sets: seq<set<Candidate>>, ghost post: seq<Assembly.Component>,
             ghost paths: seq<seq<Position<string>>>, ghost runs: seq<Assembly.Span>)
    requires Valid(seg)
    ensures Pipeline(seg.minLength, seg.ngramTree, Normalize(raw, lowerTrim), Score(seg.fullUnigramCounts, log10),
                     sets, post, paths, runs, returnList)
    ensures SpansApart(post)
    ensures forall u :: 0 <= u < |post| ==>
              Assembly.SpanOf(post[u]) in Assembly.SpanDic(post) &&
              Assembly.SpanDic(post)[Assembly.SpanOf(post[u])] == post[u].words
    ensures Normalize(raw, lowerTrim) == "" ==> returnList == []
    ensures Normalize(raw, lowerTrim) != "" &&
            (forall c :: !IsCandidate(seg.minLength, Normalize(raw, lowerTrim), seg.ngramTree,
                                      Score(seg.fullUnigramCounts, log10), c)) ==>
              returnList == [Normalize(raw, lowerTrim)]
    ensures forall tok :: tok in returnList ==>
              IsIndexedWord(seg.ngramTree, tok) || IsStretch(Normalize(raw, lowerTrim), tok)
  {
    var text := Normalize(raw, lowerTrim);
    var score := Score(seg.fullUnigramCounts, log10);
    var meaningfulWords := MeaningfulWords(seg.minLength, text, seg.ngramTree, score);
    var components := Components.ConnectedSets(meaningfulWords);
    var postComponents, chains := OptComponents(seg, text, score, components);
    var meaningfulIndices := Assembly.MeaningfulIndices(postComponents);
    var nonMeaningfulRanges := Assembly.MissingSegments(text, meaningfulIndices);
    RunsInText(nonMeaningfulRanges, |text|, meaningfulIndices);
    returnList := Assembly.Assemble(text, nonMeaningfulRanges, postComponents);
    sets, post, paths, runs := components, postComponents, chains, nonMeaningfulRanges;
    TokensOfRender(text, seg.ngramTree, runs, post);
    PipelineFacts(seg.minLength, seg.ngramTree, text, score, sets, post, paths, runs, returnList);
  }

  /**
   * The loop of `segment` over the components: one `optComponent` triple per
   * component, in the same order, each summarizing its component with words
   * of the prefix index.
   */
  method OptComponents(seg: WordSegmentation, text: string, score: string -> real, sets: seq<set<Candidate>>)
    returns (postComponents: seq<Assembly.Component>, ghost paths: seq<seq<Position<string>>>)
    requires Valid(seg)
    requires Components.Components(sets)
    requires forall y :: Components.InSome(sets, y) ==> IsCandidate(seg.minLength, text, seg.ngramTree, score, y)
    ensures |postComponents| == |sets| && |paths| == |sets|
    ensures forall u :: 0 <= u < |sets| ==> Summarizes(sets[u], postComponents[u], paths[u])
    ensures forall u, tok :: 0 <= u < |sets| && tok in postComponents[u].words ==> IsIndexedWord(seg.ngramTree, tok)
  {
    postComponents := [];
    paths := [];
    for t := 0 to |sets|
      invariant |postComponents| == t && |paths| == t
      invariant forall u :: 0 <= u < t ==> Summarizes(sets[u], postComponents[u], paths[u])
      invariant forall u, tok :: 0 <= u < t && tok in postComponents[u].words ==> IsIndexedWord(seg.ngramTree, tok)
    {
      var x, path := OptOne(seg, text, score, sets, t);
      postComponents := postComponents + [x];
      paths := paths + [path];
    }
  }

  /** One step of the `postComponents` loop: `optComponent` of component `t`. */
  method OptOne(seg: WordSegmentation, text: string, score: string -> real, sets: seq<set<Candidate>>, t: int)
    returns (x: Assembly.Component, ghost path: seq<Position<string>>)
    requires Valid(seg) && 0 <= t < |sets|
    requires Components.Components(sets)
    requires forall y :: Components.InSome(sets, y) ==> IsCandidate(seg.minLength, text, seg.ngramTree, score, y)
    ensures Summarizes(sets[t], x, path)
    ensures forall tok :: tok in x.words ==> IsIndexedWord(seg.ngramTree, tok)
  {
    var each := sets[t];
    ComponentWellFormed(seg.minLength, seg.ngramTree, text, score, sets, t);
    var s, e, wordList, chain := OptimalPath.OptComponent(seg.bigramCounts, each);
    ComponentWords(seg.minLength, seg.ngramTree, text, score, sets, t, wordList, chain);
    x := Assembly.Component(s, e, wordList);
    path := chain;
  }

  /**
   * What the stages of `segment` imply about the tokens: the spans are
   * apart and each carries its own words; the empty text gives no tokens;
   * a non-empty text without candidates is one token.
   */
  lemma PipelineFacts(minLength: nat, tree: PrefixTree, text: string, score: string -> real,
                      sets: seq<set<Candidate>>, post: seq<Assembly.Component>,
                      paths: seq<seq<Position<string>>>, runs: seq<Assembly.Span>, tokens: seq<string>)
    requires minLength >= 1 && TreeShape(tree, minLength)
    requires Pipeline(minLength, tree, text, score, sets, post, paths, runs, tokens)
    ensures SpansApart(post)
    ensures forall u :: 0 <= u < |post| ==>
              Assembly.SpanOf(post[u]) in Assembly.SpanDic(post) &&
              Assembly.SpanDic(post)[Assembly.SpanOf(post[u])] == post[u].words
    ensures text == "" ==> tokens == []
    ensures text != "" && (forall c :: !IsCandidate(minLength, text, tree, score, c)) ==> tokens == [text]
  {
    SpansDisjoint(minLength, tree, text, score, sets, post, paths);
    DicHoldsWords(post);
    NoCandidatesInEmptyText(minLength, tree, text, score);
    NoCandidatesNoSets(minLength, tree, text, score, sets);
    if text == "" {
      NoRunsInEmptyText(runs, |text|, Assembly.Covered(post));
      assert Assembly.Order(runs, post) == [];
    }
    if text != "" && (forall c :: !IsCandidate(minLength, text, tree, score, c)) {
      Assembly.WholeTextRun(text, runs);
    }
  }

  /** The empty text has no candidates. */
  lemma NoCandidatesInEmptyText(minLength: nat, tree: PrefixTree, text: string, score: string -> real)
    requires minLength >= 1 && TreeShape(tree, minLength)
    ensures text == "" ==> forall c :: !IsCandidate(minLength, text, tree, score, c)
  {
    forall c | IsCandidate(minLength, text, tree, score, c) ensures text != "" {
      CandidateSound(minLength, text, tree, score, c);
    }
  }

  /** No candidates, no components. */
  lemma NoCandidatesNoSets(minLength: nat, tree: PrefixTree, text: string, score: string -> real,
                           sets: seq<set<Candidate>>)
    requires Components.Components(sets)
    requires forall y :: Components.InSome(sets, y) ==> IsCandidate(minLength, text, tree, score, y)
    ensures (forall c :: !IsCandidate(minLength, text, tree, score, c)) ==> sets == []
  {
    if |sets| > 0 {
      assert sets[0] != {};
      var y :| y in sets[0];
      assert Components.InSome(sets, y);
    }
  }

  /** The empty text has no uncovered runs. */
  lemma NoRunsInEmptyText(pairs: seq<Assembly.Span>, n: int, covered: set<int>)
    requires Assembly.MaximalRuns(pairs, n, covered)
    ensures n <= 0 ==> pairs == []
  {
    if |pairs| > 0 {
      assert Assembly.Missing(n, covered, pairs[0].left);
    }
  }

  /** Each component is non-empty and holds candidates with well-formed positions. */
  lemma ComponentWellFormed(minLength: nat, tree: PrefixTree, text: string, score: string -> real,
                            sets: seq<set<Candidate>>, t: int)
    requires minLength >= 1 && TreeShape(tree, minLength)
    requires Components.Components(sets)
    requires forall y :: Components.InSome(sets, y) ==> IsCandidate(minLength, text, tree, score, y)
    requires 0 <= t < |sets|
    ensures sets[t] != {}
    ensures forall c :: c in sets[t] ==> c.base.start <= c.base.end
  {
    forall c | c in sets[t] ensures c.base.start <= c.base.end {
      assert Components.InSome(sets, c);
      CandidateSound(minLength, text, tree, score, c);
    }
  }

  /** The words a component contributes are words of its candidates. */
  lemma ComponentWords(minLength: nat, tree: PrefixTree, text: string, score: string -> real,
                       sets: seq<set<Candidate>>, k: int, wordList: seq<string>, path: seq<Position<string>>)
    requires forall y :: Components.InSome(sets, y) ==> IsCandidate(minLength, text, tree, score, y)
    requires 0 <= k < |sets|
    requires |wordList| == |path| && forall t :: 0 <= t < |path| ==> wordList[t] == path[t].ngram
    requires forall t :: 0 <= t < |path| ==> exists c :: c in sets[k] && path[t] == c.base
    ensures forall tok :: tok in wordList ==> IsIndexedWord(tree, tok)
  {
    forall tok | tok in wordList ensures IsIndexedWord(tree, tok) {
      var t :| 0 <= t < |wordList| && wordList[t] == tok;
      var c :| c in sets[k] && path[t] == c.base;
      assert Components.InSome(sets, c);
    }
  }

  /**
   * Two components never overlap: a connected component covers every index
   * between its first start and its largest end, and no candidate of
   * another component shares an index with it.
   */
  lemma EndsBefore(minLength: nat, tree: PrefixTree, text: string, score: string -> real,
                   sets: seq<set<Candidate>>, post: seq<Assembly.Component>,
                   paths: seq<seq<Position<string>>>, u: int, v: int)
    requires minLength >= 1 && TreeShape(tree, minLength)
    requires Components.Components(sets)
    requires forall y :: Components.InSome(sets, y) ==> IsCandidate(minLength, text, tree, score, y)
    requires |post| == |sets| && |paths| == |sets|
    requires forall w :: 0 <= w < |sets| ==> Summarizes(sets[w], post[w], paths[w])
    requires 0 <= u < |sets| && 0 <= v < |sets| && u != v && post[u].start <= post[v].start
    ensures post[u].end < post[v].start
  {
    ComponentWellFormed(minLength, tree, text, score, sets, u);
    ComponentWellFormed(minLength, tree, text, score, sets, v);
    assert Summarizes(sets[u], post[u], paths[u]) && Summarizes(sets[v], post[v], paths[v]);
    var i := post[v].start;
    var av :| av in sets[v] && paths[v][0] == av.base;
    assert Covers(av.base, i);
    var au :| au in sets[u] && paths[u][0] == au.base;
    var bu :| bu in sets[u] && bu.base.end == post[u].end;
    Components.ConnectedCovers(sets[u], au, bu, i);
    forall c | c in sets[u] ensures !Covers(c.base, i) {
      Components.ApartAcross(sets, u, v, c, av);
    }
  }

  /** The spans of the components are pairwise apart. */
  lemma SpansDisjoint(minLength: nat, tree: PrefixTree, text: string, score: string -> real,
                      sets: seq<set<Candidate>>, post: seq<Assembly.Component>, paths: seq<seq<Position<string>>>)
    requires minLength >= 1 && TreeShape(tree, minLength)
    requires Components.Components(sets)
    requires forall y :: Components.InSome(sets, y) ==> IsCandidate(minLength, text, tree, score, y)
    requires |post| == |sets| && |paths| == |sets|
    requires forall w :: 0 <= w < |sets| ==> Summarizes(sets[w], post[w], paths[w])
    ensures SpansApart(post)
  {
    forall u, v | 0 <= u < |post| && 0 <= v < |post| && u != v
      ensures post[u].end < post[v].start || post[v].end < post[u].start
    {
      if post[u].start <= post[v].start {
        EndsBefore(minLength, tree, text, score, sets, post, paths, u, v);
      } else {
        EndsBefore(minLength, tree, text, score, sets, post, paths, v, u);
      }
    }
  }

  /** With spans apart, `meaningfulDic` holds every component's words under its span. */
  lemma DicHoldsWords(post: seq<Assembly.Component>)
    requires SpansApart(post)
    requires forall u :: 0 <= u < |post| ==> post[u].start <= post[u].end
    ensures forall u :: 0 <= u < |post| ==>
              Assembly.SpanOf(post[u]) in Assembly.SpanDic(post) &&
              Assembly.SpanDic(post)[Assembly.SpanOf(post[u])] == post[u].words
  {
    assert forall t, u :: 0 <= t < u < |post| ==> Assembly.SpanOf(post[t]) != Assembly.SpanOf(post[u]);
    Assembly.SpanDicContents(post);
    forall u | 0 <= u < |post| ensures Assembly.SpanOf(post[u]) in Assembly.SpanDic(post) {
      assert Assembly.Spans(post)[u] == Assembly.SpanOf(post[u]);
    }
  }

  /** The runs `missingSegments` returns lie inside the text. */
  lemma RunsInText(pairs: seq<Assembly.Span>, n: int, covered: set<int>)
    requires Assembly.MaximalRuns(pairs, n, covered)
    ensures forall t :: 0 <= t < |pairs| ==> 0 <= pairs[t].left <= pairs[t].right < n
  {
    forall t | 0 <= t < |pairs| ensures 0 <= pairs[t].left <= pairs[t].right < n {
      assert Assembly.Missing(n, covered, pairs[t].left) && Assembly.Missing(n, covered, pairs[t].right);
    }
  }

  /** Every token of the assembled list is a component word or a literal stretch of the text. */
  lemma TokensOfRender(text: string, tree: PrefixTree, ranges: seq<Assembly.Span>, post: seq<Assembly.Component>)
    requires forall t :: 0 <= t < |ranges| ==> 0 <= ranges[t].left <= ranges[t].right < |text|
    requires forall u, tok :: 0 <= u < |post| && tok in post[u].words ==> IsIndexedWord(tree, tok)
    ensures Assembly.LiteralsInBounds(text, Assembly.SpanDic(post), Assembly.Order(ranges, post))
    ensures forall tok :: tok in Assembly.Render(text, Assembly.SpanDic(post), Assembly.Order(ranges, post)) ==>
              IsIndexedWord(tree, tok) || IsStretch(text, tok)
  {
    Assembly.OrderInBounds(text, ranges, post);
    var dic := Assembly.SpanDic(post);
    DicWords(tree, post);
    RenderTokens(text, tree, dic, Assembly.Order(ranges, post));
  }

  /** The values of `meaningfulDic` are word lists of components. */
  lemma {:induction false} DicWords(tree: PrefixTree, post: seq<Assembly.Component>)
    requires forall u, tok :: 0 <= u < |post| && tok in post[u].words ==> IsIndexedWord(tree, tok)
    ensures forall x, tok :: x in Assembly.SpanDic(post) && tok in Assembly.SpanDic(post)[x] ==> IsIndexedWord(tree, tok)
  {
    if post != [] {
      DicWords(tree, post[..|post| - 1]);
    }
  }

  /** Rendering draws every token from a component's words or from a literal range. */
  lemma {:induction false} RenderTokens(text: string, tree: PrefixTree, dic: map<Assembly.Span, seq<string>>,
                                        spans: seq<Assembly.Span>)
    requires Assembly.LiteralsInBounds(text, dic, spans)
    requires forall x, tok :: x in dic && tok in dic[x] ==> IsIndexedWord(tree, tok)
    ensures forall tok :: tok in Assembly.Render(text, dic, spans) ==> IsIndexedWord(tree, tok) || IsStretch(text, tok)
  {
    if spans != [] {
      var x := spans[0];
      RenderTokens(text, tree, dic, spans[1..]);
      if x !in dic {
        assert text[x.left..x.right + 1] == Stretch(text, x.left, x.right);
      }
    }
  }
}
