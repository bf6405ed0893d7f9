/**
 * The last steps of `segment`: the indices covered by the component spans,
 * `missingSegments` (the maximal runs of uncovered indices), and the merge of
 * those runs with the component spans, by start offset, into the token list.
 */
module Assembly {
  import Collections

  /** `Triple<Integer, Integer, List<String>>`: a component's span `[start, end]` and its chosen words. */
  datatype Component = Component(start: int, end: int, words: seq<string>)

  /** `Pair<Integer, Integer>`: an inclusive range of the text. */
  datatype Span = Span(left: int, right: int)

  function Left(x: Span): int { x.left }

  /** Index `i` lies in the span of some component of `post`. */
  ghost predicate InSomeSpan(post: seq<Component>, i: int) {
    exists t :: 0 <= t < |post| && post[t].start <= i <= post[t].end
  }

  /** Index `i` lies in the span of `x`. */
  predicate InSpanOf(x: Component, i: int) {
    x.start <= i <= x.end
  }

  /** The indices of the component spans. */
  ghost function Covered(post: seq<Component>): (r: set<int>)
    ensures forall i :: i in r <==> InSomeSpan(post, i)
  {
    if post == [] then {}
    else
      var last := post[|post| - 1];
      assert forall u :: 0 <= u < |post| - 1 ==> post[..|post| - 1][u] == post[u];
      Covered(post[..|post| - 1]) + set i | last.start <= i <= last.end && InSpanOf(last, i)
  }

  /** The `meaningfulIndices` loop: every index of every component span. */
  method MeaningfulIndices(post: seq<Component>) returns (covered: set<int>)
    ensures forall i :: i in covered <==> InSomeSpan(post, i)
    ensures covered == Covered(post)
  {
    covered := {};
    for t := 0 to |post|
      invariant forall i :: i in covered <==> exists u :: 0 <= u < t && post[u].start <= i <= post[u].end
    {
      var i := post[t].start;
      while i <= post[t].end
        invariant post[t].start <= i && (i == post[t].start || i <= post[t].end + 1)
        invariant forall k :: k in covered <==>
                    (exists u :: 0 <= u < t && post[u].start <= k <= post[u].end) || post[t].start <= k < i
        decreases post[t].end - i
      {
        covered := covered + {i};
        i := i + 1;
      }
      forall k ensures k in covered <==> exists u :: 0 <= u < t + 1 && post[u].start <= k <= post[u].end {
        if post[t].start <= k <= post[t].end {
          assert 0 <= t < t + 1;
        }
      }
    }
    assert forall i :: i in covered <==> i in Covered(post);
  }

  // ----------------------------------------------------- missingSegments

  /** Index `i` of a text of length `n` belongs to no component span. */
  predicate Missing(n: int, covered: set<int>, i: int) {
    0 <= i < n && i !in covered
  }

  /** `[x.left, x.right]` is a run of missing indices that cannot be extended either way. */
  predicate IsMaximalRun(n: int, covered: set<int>, x: Span) {
    && x.left <= x.right
    && (forall i :: x.left <= i <= x.right ==> Missing(n, covered, i))
    && !Missing(n, covered, x.left - 1)
    && !Missing(n, covered, x.right + 1)
  }

  /** `pairs` lists, left to right, exactly the maximal runs of missing indices. */
  ghost predicate MaximalRuns(pairs: seq<Span>, n: int, covered: set<int>) {
    && (forall t :: 0 <= t < |pairs| ==> IsMaximalRun(n, covered, pairs[t]))
    && (forall t :: 0 <= t < |pairs| - 1 ==> pairs[t].right < pairs[t + 1].left)
    && (forall i :: Missing(n, covered, i) ==> exists t :: 0 <= t < |pairs| && pairs[t].left <= i <= pairs[t].right)
  }

  /** `current` holds the consecutive indices `current[0]`, `current[0] + 1`, … */
  predicate Consecutive(current: seq<int>) {
    forall k :: 0 <= k < |current| ==> current[k] == current[0] + k
  }

  /** What the scan of `missingSegments` knows after the indices below `i`. */
  ghost predicate ScanState(n: int, covered: set<int>, pairs: seq<Span>, current: seq<int>, i: int) {
    && Consecutive(current)
    && (current == [] ==> pairs == [] && forall k :: 0 <= k < i ==> !Missing(n, covered, k))
    && (current != [] ==>
          && !Missing(n, covered, current[0] - 1)
          && current[|current| - 1] < i
          && (forall k :: current[0] <= k <= current[|current| - 1] ==> Missing(n, covered, k))
          && (forall k :: current[|current| - 1] < k < i ==> !Missing(n, covered, k)))
    && (forall t :: 0 <= t < |pairs| ==> IsMaximalRun(n, covered, pairs[t]))
    && (forall t :: 0 <= t < |pairs| - 1 ==> pairs[t].right < pairs[t + 1].left)
    && (|pairs| > 0 ==> pairs[|pairs| - 1].right < i)
    && (|pairs| > 0 && current != [] ==> pairs[|pairs| - 1].right + 1 < current[0])
    && (forall k :: 0 <= k < i && Missing(n, covered, k) ==>
          (current != [] && current[0] <= k <= current[|current| - 1]) ||
          exists t :: 0 <= t < |pairs| && pairs[t].left <= k <= pairs[t].right)
  }

  /**
   * `missingSegments(text, meaningfulIndices)`: the maximal runs `[a, b]` of
   * indices of the text that no component span covers, in ascending order.
   */
  method MissingSegments(text: string, covered: set<int>) returns (pairs: seq<Span>)
    ensures MaximalRuns(pairs, |text|, covered)
  {
    var n := |text|;
    pairs := [];
    var current: seq<int> := [];
    for i := 0 to n
      invariant ScanState(n, covered, pairs, current, i)
    {
      if i !in covered {
        pairs, current := ScanMissing(n, covered, pairs, current, i);
      } else {
        SkipCovered(n, covered, pairs, current, i);
      }
    }
    pairs := FinishScan(n, covered, pairs, current);
  }

  /** One missing index: it starts, extends, or follows the open run. */
  method ScanMissing(n: int, covered: set<int>, pairs: seq<Span>, current: seq<int>, i: int)
    returns (pairs': seq<Span>, current': seq<int>)
    requires ScanState(n, covered, pairs, current, i) && 0 <= i < n && i !in covered
    ensures ScanState(n, covered, pairs', current', i + 1)
  {
    if current == [] {
      pairs', current' := pairs, [i];
      StartRun(n, covered, i);
    } else if current[|current| - 1] == i - 1 {
      ExtendRun(n, covered, pairs, current, i);
      pairs', current' := pairs, current + [i];
    } else {
      pairs' := CloseRun(n, covered, pairs, current, i);
      current' := [i];
      NewRun(n, covered, pairs, current, pairs', i);
    }
  }

  /** An index some span covers leaves the scan as it is. */
  lemma SkipCovered(n: int, covered: set<int>, pairs: seq<Span>, current: seq<int>, i: int)
    requires ScanState(n, covered, pairs, current, i) && 0 <= i < n && i in covered
    ensures ScanState(n, covered, pairs, current, i + 1)
  {
  }

  /** After the last index the open run, if any, is closed. */
  method FinishScan(n: int, covered: set<int>, pairs: seq<Span>, current: seq<int>) returns (pairs': seq<Span>)
    requires ScanState(n, covered, pairs, current, n) && 0 <= n
    ensures MaximalRuns(pairs', n, covered)
  {
    if current != [] {
      pairs' := CloseRun(n, covered, pairs, current, n);
      LastRun(n, covered, pairs, current, pairs');
    } else {
      pairs' := pairs;
      assert pairs == [];
    }
  }

  /** The first missing index starts the first run. */
  lemma StartRun(n: int, covered: set<int>, i: int)
    requires 0 <= i < n && i !in covered
    requires forall k :: 0 <= k < i ==> !Missing(n, covered, k)
    ensures ScanState(n, covered, [], [i], i + 1)
  {
  }

  /** A missing index right after the run extends it. */
  lemma ExtendRun(n: int, covered: set<int>, pairs: seq<Span>, current: seq<int>, i: int)
    requires ScanState(n, covered, pairs, current, i) && 0 <= i < n && i !in covered
    requires current != [] && current[|current| - 1] == i - 1
    ensures ScanState(n, covered, pairs, current + [i], i + 1)
  {
    var c := current + [i];
    assert c[0] == current[0] && c[|c| - 1] == i;
    forall k | current[0] <= k <= i ensures Missing(n, covered, k) {
      if k < i {
        assert current[0] <= k <= current[|current| - 1];
      }
    }
  }

  /** A missing index after a gap closes the run, now in `closed + [run]`, and starts a new one. */
  lemma NewRun(n: int, covered: set<int>, closed: seq<Span>, run: seq<int>, pairs: seq<Span>, i: int)
    requires ScanState(n, covered, closed, run, i) && 0 <= i < n && i !in covered
    requires run != [] && run[|run| - 1] != i - 1
    requires pairs == closed + [Span(run[0], run[|run| - 1])]
    requires forall t :: 0 <= t < |pairs| ==> IsMaximalRun(n, covered, pairs[t])
    ensures ScanState(n, covered, pairs, [i], i + 1)
  {
    assert pairs[|pairs| - 1] == Span(run[0], run[|run| - 1]);
    forall t | 0 <= t < |pairs| - 1 ensures pairs[t].right < pairs[t + 1].left {
      if t + 1 < |closed| {
        assert pairs[t] == closed[t] && pairs[t + 1] == closed[t + 1];
      }
    }
    forall k | 0 <= k < i + 1 && Missing(n, covered, k)
      ensures ([i] != [] && i <= k <= i) || exists t :: 0 <= t < |pairs| && pairs[t].left <= k <= pairs[t].right
    {
      if k < i {
        if run[0] <= k <= run[|run| - 1] {
          assert pairs[|pairs| - 1].left <= k <= pairs[|pairs| - 1].right;
        } else {
          var t :| 0 <= t < |closed| && closed[t].left <= k <= closed[t].right;
          assert pairs[t] == closed[t];
        }
      }
    }
  }

  /** At the end of the text the open run closes, and the list holds every maximal run. */
  lemma LastRun(n: int, covered: set<int>, closed: seq<Span>, run: seq<int>, pairs: seq<Span>)
    requires ScanState(n, covered, closed, run, n) && run != []
    requires pairs == closed + [Span(run[0], run[|run| - 1])]
    requires forall t :: 0 <= t < |pairs| ==> IsMaximalRun(n, covered, pairs[t])
    ensures MaximalRuns(pairs, n, covered)
  {
    assert pairs[|pairs| - 1] == Span(run[0], run[|run| - 1]);
    forall t | 0 <= t < |pairs| - 1 ensures pairs[t].right < pairs[t + 1].left {
      if t + 1 < |closed| {
        assert pairs[t] == closed[t] && pairs[t + 1] == closed[t + 1];
      }
    }
    forall k | Missing(n, covered, k)
      ensures exists t :: 0 <= t < |pairs| && pairs[t].left <= k <= pairs[t].right
    {
      if run[0] <= k <= run[|run| - 1] {
        assert pairs[|pairs| - 1].left <= k <= pairs[|pairs| - 1].right;
      } else {
        var t :| 0 <= t < |closed| && closed[t].left <= k <= closed[t].right;
        assert pairs[t] == closed[t];
      }
    }
  }

  /**
   * `pairs.add(Pair.of(current.get(0), current.get(current.size() - 1)))`:
   * the run held in `current` ends before the missing index `i` (or the end
   * of the text) and cannot be extended, so it joins the list.
   */
  method CloseRun(n: int, covered: set<int>, pairs: seq<Span>, current: seq<int>, i: int) returns (pairs': seq<Span>)
    requires current != [] && Consecutive(current) && i <= n
    requires !Missing(n, covered, current[0] - 1)
    requires current[|current| - 1] < i
    requires i < n ==> current[|current| - 1] < i - 1
    requires forall k :: current[0] <= k <= current[|current| - 1] ==> Missing(n, covered, k)
    requires forall k :: current[|current| - 1] < k < i ==> !Missing(n, covered, k)
    requires forall t :: 0 <= t < |pairs| ==> IsMaximalRun(n, covered, pairs[t])
    requires forall t :: 0 <= t < |pairs| - 1 ==> pairs[t].right < pairs[t + 1].left
    requires |pairs| > 0 ==> pairs[|pairs| - 1].right + 1 < current[0]
    ensures pairs' == pairs + [Span(current[0], current[|current| - 1])]
    ensures forall t :: 0 <= t < |pairs'| ==> IsMaximalRun(n, covered, pairs'[t])
    ensures forall t :: 0 <= t < |pairs'| - 1 ==> pairs'[t].right < pairs'[t + 1].left
  {
    var last := current[|current| - 1];
    assert last == current[0] + (|current| - 1);
    assert !Missing(n, covered, last + 1) by {
      if last + 1 < i {
      }
    }
    pairs' := pairs + [Span(current[0], last)];
  }

  /** There is only one list of maximal runs: `missingSegments` is determined by its contract. */
  lemma MaximalRunsUnique(p: seq<Span>, q: seq<Span>, n: int, covered: set<int>)
    requires MaximalRuns(p, n, covered) && MaximalRuns(q, n, covered)
    ensures p == q
  {
    MaximalRunsSuffix(p, q, n, covered, 0);
  }

  /** Two lists of maximal runs that agree on their first `a` runs agree everywhere. */
  lemma {:induction false} MaximalRunsSuffix(p: seq<Span>, q: seq<Span>, n: int, covered: set<int>, a: int)
    requires MaximalRuns(p, n, covered) && MaximalRuns(q, n, covered)
    requires 0 <= a <= |p| && 0 <= a <= |q|
    requires forall t :: 0 <= t < a ==> p[t] == q[t]
    ensures p == q
    decreases |p| - a
  {
    if a < |p| && a < |q| {
      SameRun(p, q, n, covered, a);
      MaximalRunsSuffix(p, q, n, covered, a + 1);
    } else if a == |q| {
      NoRunsAfter(p, q, n, covered);
    } else {
      NoRunsAfter(q, p, n, covered);
    }
  }

  /** When every run of `q` is a run of `p`, taken in order, `p` has no further run. */
  lemma NoRunsAfter(p: seq<Span>, q: seq<Span>, n: int, covered: set<int>)
    requires MaximalRuns(p, n, covered) && MaximalRuns(q, n, covered)
    requires |q| <= |p| && forall t :: 0 <= t < |q| ==> p[t] == q[t]
    ensures |p| == |q|
  {
    if |q| < |p| {
      var a := |q|;
      var i := p[a].left;
      assert Missing(n, covered, i);
      var t :| 0 <= t < |q| && q[t].left <= i <= q[t].right;
      RunsOrdered(p, n, covered, t, a);
      assert false;
    }
  }

  /** Along a list of runs, a later run starts after an earlier one ends. */
  lemma {:induction false} RunsOrdered(p: seq<Span>, n: int, covered: set<int>, s: int, t: int)
    requires MaximalRuns(p, n, covered) && 0 <= s < t < |p|
    ensures p[s].right < p[t].left
    decreases t - s
  {
    if s + 1 < t {
      RunsOrdered(p, n, covered, s + 1, t);
      assert p[s + 1].left <= p[s + 1].right;
    }
  }

  /** The `a`-th runs of two lists that agree before `a` are the same run. */
  lemma SameRun(p: seq<Span>, q: seq<Span>, n: int, covered: set<int>, a: int)
    requires MaximalRuns(p, n, covered) && MaximalRuns(q, n, covered)
    requires 0 <= a < |p| && 0 <= a < |q|
    requires forall t :: 0 <= t < a ==> p[t] == q[t]
    ensures p[a] == q[a]
  {
    StartNotBefore(p, q, n, covered, a);
    StartNotBefore(q, p, n, covered, a);
    SameRunBounds(p[a], q[a], n, covered);
  }

  /** The `a`-th run of `p` cannot start before that of `q` when the lists agree before `a`. */
  lemma StartNotBefore(p: seq<Span>, q: seq<Span>, n: int, covered: set<int>, a: int)
    requires MaximalRuns(p, n, covered) && MaximalRuns(q, n, covered)
    requires 0 <= a < |p| && 0 <= a < |q|
    requires forall t :: 0 <= t < a ==> p[t] == q[t]
    ensures q[a].left <= p[a].left
  {
    var i := p[a].left;
    assert Missing(n, covered, i);
    var t :| 0 <= t < |q| && q[t].left <= i <= q[t].right;
    if t < a {
      RunsOrdered(p, n, covered, t, a);
      assert false;
    } else if t > a {
      RunsOrdered(q, n, covered, a, t);
      assert q[a].left <= q[a].right;
    }
  }

  /** Two maximal runs that share an index are the same run. */
  lemma SameRunBounds(x: Span, y: Span, n: int, covered: set<int>)
    requires IsMaximalRun(n, covered, x) && IsMaximalRun(n, covered, y)
    requires (y.left <= x.left <= y.right) || (x.left <= y.left <= x.right)
    ensures x == y
  {
  }

  /** The literal runs and the component spans together cover every index of the text, and never overlap. */
  lemma RunsAndSpansCover(pairs: seq<Span>, n: int, post: seq<Component>, covered: set<int>, i: int)
    requires forall k :: k in covered <==> InSomeSpan(post, k)
    requires MaximalRuns(pairs, n, covered)
    requires 0 <= i < n
    ensures InSomeSpan(post, i) || exists t :: 0 <= t < |pairs| && pairs[t].left <= i <= pairs[t].right
    ensures forall t :: 0 <= t < |pairs| && pairs[t].left <= i <= pairs[t].right ==> !InSomeSpan(post, i)
  {
    if !InSomeSpan(post, i) {
      assert Missing(n, covered, i);
    }
    forall t | 0 <= t < |pairs| && pairs[t].left <= i <= pairs[t].right ensures !InSomeSpan(post, i) {
      assert Missing(n, covered, i);
    }
  }

  // ------------------------------------------------------------- segment

  /** Every span not in `dic` is a literal range inside the text. */
  predicate LiteralsInBounds(text: string, dic: map<Span, seq<string>>, spans: seq<Span>) {
    forall t :: 0 <= t < |spans| && spans[t] !in dic ==> 0 <= spans[t].left <= spans[t].right < |text|
  }

  /** The tokens of one span: a component span gives its words, any other the text it covers. */
  function Piece(text: string, dic: map<Span, seq<string>>, x: Span): seq<string>
    requires x !in dic ==> 0 <= x.left <= x.right < |text|
  {
    if x in dic then dic[x] else [text[x.left..x.right + 1]]
  }

  /** No span of the list is a component span. */
  predicate AllLiteral(dic: map<Span, seq<string>>, spans: seq<Span>) {
    forall t :: 0 <= t < |spans| ==> spans[t] !in dic
  }

  /** The text each span covers, one string per span. */
  function LiteralTokens(text: string, dic: map<Span, seq<string>>, spans: seq<Span>): (r: seq<string>)
    requires LiteralsInBounds(text, dic, spans) && AllLiteral(dic, spans)
    ensures |r| == |spans| && forall t :: 0 <= t < |spans| ==> r[t] == text[spans[t].left..spans[t].right + 1]
  {
    seq(|spans|, t requires 0 <= t < |spans| => text[spans[t].left..spans[t].right + 1])
  }

  /** The tokens of the spans, in order. */
  function Render(text: string, dic: map<Span, seq<string>>, spans: seq<Span>): seq<string>
    requires LiteralsInBounds(text, dic, spans)
  {
    if spans == [] then []
    else Piece(text, dic, spans[0]) + Render(text, dic, spans[1..])
  }

  /** Without component spans, each span is one token: the text it covers. */
  lemma {:induction false} RenderLiterals(text: string, dic: map<Span, seq<string>>, spans: seq<Span>)
    requires LiteralsInBounds(text, dic, spans) && AllLiteral(dic, spans)
    ensures Render(text, dic, spans) == LiteralTokens(text, dic, spans)
  {
    if spans != [] {
      LiteralsTail(text, dic, spans);
      RenderLiterals(text, dic, spans[1..]);
      var all := LiteralTokens(text, dic, spans);
      var rest := LiteralTokens(text, dic, spans[1..]);
      assert all == [all[0]] + rest by {
        forall t | 0 <= t < |rest| ensures all[t + 1] == rest[t] {
          assert spans[1..][t] == spans[t + 1];
        }
      }
      assert Piece(text, dic, spans[0]) == [all[0]];
    }
  }

  /** `Render` of a concatenation is the concatenation of the renders. */
  lemma {:induction false} RenderAppend(text: string, dic: map<Span, seq<string>>, a: seq<Span>, b: seq<Span>)
    requires LiteralsInBounds(text, dic, a) && LiteralsInBounds(text, dic, b)
    ensures LiteralsInBounds(text, dic, a + b)
    ensures Render(text, dic, a + b) == Render(text, dic, a) + Render(text, dic, b)
    decreases |a|
  {
    LiteralsAppend(text, dic, a, b);
    if a != [] {
      assert (a + b)[0] == a[0];
      assert (a + b)[1..] == a[1..] + b;
      LiteralsTail(text, dic, a);
      RenderAppend(text, dic, a[1..], b);
      assert Render(text, dic, a + b) == Piece(text, dic, a[0]) + Render(text, dic, a[1..] + b);
    } else {
      assert a + b == b;
    }
  }

  /** Two lists with literal spans in bounds concatenate to one. */
  lemma LiteralsAppend(text: string, dic: map<Span, seq<string>>, a: seq<Span>, b: seq<Span>)
    requires LiteralsInBounds(text, dic, a) && LiteralsInBounds(text, dic, b)
    ensures LiteralsInBounds(text, dic, a + b)
  {
    forall t | 0 <= t < |a + b| && (a + b)[t] !in dic ensures 0 <= (a + b)[t].left <= (a + b)[t].right < |text| {
      if t < |a| { assert (a + b)[t] == a[t]; } else { assert (a + b)[t] == b[t - |a|]; }
    }
  }

  /** Dropping the first span keeps the literal spans in bounds and literal. */
  lemma LiteralsTail(text: string, dic: map<Span, seq<string>>, spans: seq<Span>)
    requires spans != [] && LiteralsInBounds(text, dic, spans)
    ensures LiteralsInBounds(text, dic, spans[1..])
    ensures AllLiteral(dic, spans) ==> AllLiteral(dic, spans[1..])
  {
    forall t | 0 <= t < |spans| - 1 ensures spans[1..][t] == spans[t + 1] {
    }
  }

  /** Rendering one more span of a list appends that span's tokens. */
  lemma RenderStep(text: string, dic: map<Span, seq<string>>, spans: seq<Span>, t: int)
    requires LiteralsInBounds(text, dic, spans) && 0 <= t < |spans|
    ensures LiteralsInBounds(text, dic, spans[..t]) && LiteralsInBounds(text, dic, spans[..t + 1])
    ensures Render(text, dic, spans[..t + 1]) == Render(text, dic, spans[..t]) + Piece(text, dic, spans[t])
  {
    assert spans[..t + 1] == spans[..t] + [spans[t]];
    RenderAppend(text, dic, spans[..t], [spans[t]]);
  }

  /** A literal span contributes exactly the text it covers, as one token; a component span, its word list. */
  lemma RenderSingle(text: string, dic: map<Span, seq<string>>, x: Span)
    requires x !in dic ==> 0 <= x.left <= x.right < |text|
    ensures x !in dic ==> Render(text, dic, [x]) == [text[x.left..x.right + 1]]
    ensures x in dic ==> Render(text, dic, [x]) == dic[x]
  {
  }

  /** The span of a component. */
  function SpanOf(x: Component): Span { Span(x.start, x.end) }

  /** The component spans, in order. */
  function Spans(post: seq<Component>): (r: seq<Span>)
    ensures |r| == |post| && forall t :: 0 <= t < |post| ==> r[t] == SpanOf(post[t])
  {
    seq(|post|, t requires 0 <= t < |post| => SpanOf(post[t]))
  }

  /** `meaningfulDic`: each component's words put under its span, a later component replacing an earlier one. */
  function SpanDic(post: seq<Component>): map<Span, seq<string>>
  {
    if post == [] then map[]
    else SpanDic(post[..|post| - 1])[SpanOf(post[|post| - 1]) := post[|post| - 1].words]
  }

  /** The keys of `meaningfulDic` are the component spans; with distinct spans each holds its own component's words. */
  lemma {:induction false} SpanDicContents(post: seq<Component>)
    ensures forall x :: x in SpanDic(post) <==> x in Spans(post)
    ensures (forall t, u :: 0 <= t < u < |post| ==> SpanOf(post[t]) != SpanOf(post[u])) ==>
            forall t :: 0 <= t < |post| ==> SpanDic(post)[SpanOf(post[t])] == post[t].words
  {
    if post != [] {
      var init := post[..|post| - 1];
      SpanDicContents(init);
      forall x ensures x in SpanDic(post) <==> x in Spans(post) {
        if x in Spans(init) {
          var t :| 0 <= t < |init| && Spans(init)[t] == x;
          assert Spans(post)[t] == x;
        }
        if x in Spans(post) {
          var t :| 0 <= t < |post| && Spans(post)[t] == x;
          if t < |init| {
            assert Spans(init)[t] == x;
          }
        }
      }
    }
  }

  /** The literal ranges and the component spans, stably sorted by start: the order `segment` emits them in. */
  function Order(nonMeaningfulRanges: seq<Span>, post: seq<Component>): seq<Span> {
    Collections.SortBy(nonMeaningfulRanges + Spans(post), Left)
  }

  /**
   * With no components, a non-empty text is one maximal run, and the token
   * list is the whole text.
   */
  lemma WholeTextRun(text: string, runs: seq<Span>)
    requires text != "" && MaximalRuns(runs, |text|, Covered([]))
    ensures runs == [Span(0, |text| - 1)]
    ensures LiteralsInBounds(text, SpanDic([]), Order(runs, []))
    ensures Render(text, SpanDic([]), Order(runs, [])) == [text]
  {
    var whole := [Span(0, |text| - 1)];
    assert MaximalRuns(whole, |text|, Covered([])) by {
      forall i | Missing(|text|, Covered([]), i)
        ensures exists t :: 0 <= t < |whole| && whole[t].left <= i <= whole[t].right
      {
        assert whole[0].left <= i <= whole[0].right;
      }
    }
    MaximalRunsUnique(runs, whole, |text|, Covered([]));
    var sorted := Order(runs, []);
    assert runs + Spans([]) == whole;
    assert multiset(sorted) == multiset(whole);
    assert |sorted| == 1;
    assert sorted[0] in multiset(whole);
    assert sorted == whole;
    assert text[0..|text|] == text;
  }

  /** A span of the sorted list that is not a component span is one of the literal ranges, so the substring is in bounds. */
  lemma OrderInBounds(text: string, nonMeaningfulRanges: seq<Span>, post: seq<Component>)
    requires forall t :: 0 <= t < |nonMeaningfulRanges| ==>
               0 <= nonMeaningfulRanges[t].left <= nonMeaningfulRanges[t].right < |text|
    ensures LiteralsInBounds(text, SpanDic(post), Order(nonMeaningfulRanges, post))
  {
    var all := nonMeaningfulRanges + Spans(post);
    var sorted := Order(nonMeaningfulRanges, post);
    SpanDicContents(post);
    forall t | 0 <= t < |sorted| && sorted[t] !in SpanDic(post)
      ensures 0 <= sorted[t].left <= sorted[t].right < |text|
    {
      Collections.SortByMembers(all, Left, sorted[t]);
      var k :| 0 <= k < |all| && all[k] == sorted[t];
      assert k < |nonMeaningfulRanges|;
    }
  }

  /** The `meaningfulDic` and `overallPosList` loop of `segment`. */
  method CollectSpans(nonMeaningfulRanges: seq<Span>, post: seq<Component>)
    returns (overallPosList: seq<Span>, meaningfulDic: map<Span, seq<string>>)
    ensures overallPosList == nonMeaningfulRanges + Spans(post)
    ensures meaningfulDic == SpanDic(post)
  {
    overallPosList := nonMeaningfulRanges;
    meaningfulDic := map[];
    for t := 0 to |post|
      invariant overallPosList == nonMeaningfulRanges + Spans(post[..t])
      invariant meaningfulDic == SpanDic(post[..t])
    {
      var p := SpanOf(post[t]);
      overallPosList := overallPosList + [p];
      meaningfulDic := meaningfulDic[p := post[t].words];
      assert post[..t + 1][..t] == post[..t];
      assert Spans(post[..t + 1]) == Spans(post[..t]) + [p];
    }
    assert post[..|post|] == post;
  }

  /**
   * The body of `segment` after `missingSegments`: the literal runs and the
   * component spans, stably sorted by start, each replaced by its tokens
   * (a literal range by the text it covers, a component by its words).
   */
  method Assemble(text: string, nonMeaningfulRanges: seq<Span>, post: seq<Component>)
    returns (returnList: seq<string>)
    requires forall t :: 0 <= t < |nonMeaningfulRanges| ==>
               0 <= nonMeaningfulRanges[t].left <= nonMeaningfulRanges[t].right < |text|
    ensures LiteralsInBounds(text, SpanDic(post), Order(nonMeaningfulRanges, post))
    ensures returnList == Render(text, SpanDic(post), Order(nonMeaningfulRanges, post))
  {
    var overallPosList, meaningfulDic := CollectSpans(nonMeaningfulRanges, post);
    var sorted := Collections.SortBy(overallPosList, Left);
    OrderInBounds(text, nonMeaningfulRanges, post);
    returnList := RenderAll(text, meaningfulDic, sorted);
  }

  /** The `returnList` loop of `segment`: each sorted span replaced by its tokens, in order. */
  method RenderAll(text: string, dic: map<Span, seq<string>>, sorted: seq<Span>) returns (returnList: seq<string>)
    requires LiteralsInBounds(text, dic, sorted)
    ensures returnList == Render(text, dic, sorted)
  {
    returnList := [];
    for t := 0 to |sorted|
      invariant LiteralsInBounds(text, dic, sorted[..t])
      invariant returnList == Render(text, dic, sorted[..t])
    {
      var x := sorted[t];
      RenderStep(text, dic, sorted, t);
      if x in dic {
        returnList := returnList + dic[x];
      } else {
        var left := x.left;
        var right := x.right;
        var substring := text[left..right + 1];
        returnList := returnList + [substring];
      }
    }
    assert sorted[..|sorted|] == sorted;
  }
}
