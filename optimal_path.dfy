/**
 * `optComponent` and the dynamic program behind it: the candidates of one
 * component, sorted by end, each with its nearest predecessors (`MaybeRange`),
 * the memoised recurrence `opt`, the reconstruction `path` and its driver
 * `calculatePaths`, with the helpers `max`, `add` and `penalize`.
 */
module OptimalPath {
  import opened JavaUtil
  import opened Positions
  import opened Candidates
  import Collections

  /** `Pair<Pair<Position, Double>, MaybeRange>`: a candidate and its nearest predecessors, 1-based. */
  datatype Entry = Entry(cand: Candidate, range: MaybeRange)

  /** `CircularList.get`: a negative index counts from the end. */
  function CircularGet<T>(s: seq<T>, i: int): (r: T)
    requires -|s| <= i < |s|
    ensures r == s[i % |s|]
    ensures i == -1 ==> r == s[|s| - 1]
  {
    if i < 0 then s[i + |s|] else s[i]
  }

  function Start(e: Entry): int { e.cand.base.start }
  function End(e: Entry): int { e.cand.base.end }

  // ------------------------------------------------------------ the helpers

  /** `max(Double, Double)`: the larger of the present values, null only when both are. */
  function Max(d1: Option<real>, d2: Option<real>): (r: Option<real>)
    ensures r.None? <==> d1.None? && d2.None?
    ensures r.Some? ==> r == d1 || r == d2
    ensures d1.Some? ==> r.Some? && d1.value <= r.value
    ensures d2.Some? ==> r.Some? && d2.value <= r.value
  {
    if d1.None? then d2
    else if d2.None? then d1
    else if d1.value >= d2.value then d1 else d2
  }

  /** `add(Double, Double, Double)`: a missing first summand counts as zero. */
  function Add(d1: Option<real>, d2: real, d3: real): (r: real)
    ensures r - d2 - d3 == if d1.Some? then d1.value else 0.0
  {
    if d1.None? then d2 + d3 else d1.value + d2 + d3
  }

  /** `double` division; a zero divisor gives 0 here (Java gives an infinity or NaN). */
  function Div(a: real, b: real): (r: real)
    ensures b != 0.0 ==> r * b == a
    ensures b == 0.0 ==> r == 0.0
  {
    if b == 0.0 then 0.0 else a / b
  }

  /** A bigram count over the total word count of the corpus (1024908267229). */
  function RelativeFrequency(count: int): real {
    count as real / 1024908267229.0
  }

  /** The bigram key `"<previous> <current>"`. */
  function BigramKey(previous: string, current: string): string {
    previous + " " + current
  }

  /**
   * `penalize(current, prev, lst)`: choosing entry `current` after entry
   * `prev` (both 1-based, 0 for "nothing before") costs 10 per character
   * before the word when nothing precedes it (a penalty of -10 times its
   * start), and otherwise earns a reward when the two words are adjacent
   * and form a known bigram.
   */
  function Penalize(bigrams: map<string, int>, lst: seq<Entry>, current: int, prev: int): (r: real)
    requires 1 - |lst| <= current <= |lst| && 1 - |lst| <= prev <= |lst|
    ensures prev == 0 ==> r == -10.0 * (Start(CircularGet(lst, current - 1)) as real)
    ensures prev != 0 && r != 0.0 ==>
              var curr := CircularGet(lst, current - 1);
              var previous := CircularGet(lst, prev - 1);
              Start(curr) - End(previous) == 1 && BigramKey(previous.cand.base.ngram, curr.cand.base.ngram) in bigrams
  {
    var curr := CircularGet(lst, current - 1);
    var previous := CircularGet(lst, prev - 1);
    if prev == 0 then
      -10.0 * (Start(curr) as real)
    else if Start(curr) - End(previous) == 1 then
      var bigram := BigramKey(previous.cand.base.ngram, curr.cand.base.ngram);
      if bigram in bigrams then
        Div(RelativeFrequency(bigrams[bigram]), previous.cand.score) - curr.cand.score
      else 0.0
    else 0.0
  }

  /** The reward for a known bigram of adjacent words is its relative frequency over the predecessor's score, less the word's own score. */
  lemma PenalizeBigram(bigrams: map<string, int>, lst: seq<Entry>, current: int, prev: int)
    requires 1 <= current <= |lst| && 1 <= prev <= |lst|
    requires Start(lst[current - 1]) - End(lst[prev - 1]) == 1
    requires BigramKey(lst[prev - 1].cand.base.ngram, lst[current - 1].cand.base.ngram) in bigrams
    requires lst[prev - 1].cand.score != 0.0
    ensures Penalize(bigrams, lst, current, prev) ==
            RelativeFrequency(bigrams[BigramKey(lst[prev - 1].cand.base.ngram, lst[current - 1].cand.base.ngram)])
              / lst[prev - 1].cand.score - lst[current - 1].cand.score
  {
  }

  // ------------------------------------------------------ predecessor table

  /** Candidate `k` ends right before candidate `j` starts (the test of the `prevList` loop). */
  predicate IsPred(ws: seq<Candidate>, j: int, k: int) {
    0 <= j < |ws| && 0 <= k < |ws| &&
    IsNotIntersecting(ws[j].base, ws[k].base) && ws[j].base.start == ws[k].base.end + 1
  }

  /**
   * `r` holds, 1-based, the last candidate ending right before `ws[j]` and,
   * when there is one, the last but one; `start` is 0 when there is none.
   */
  ghost predicate IsPredRange(ws: seq<Candidate>, j: int, r: MaybeRange) {
    0 <= r.start <= |ws| &&
    (r.start == 0 ==> r.end.None? && forall k :: 0 <= k < |ws| ==> !IsPred(ws, j, k)) &&
    (r.start >= 1 ==> IsPred(ws, j, r.start - 1) && forall k :: r.start - 1 < k < |ws| ==> !IsPred(ws, j, k)) &&
    (r.end.None? ==> forall k :: 0 <= k < r.start - 1 ==> !IsPred(ws, j, k)) &&
    (r.end.Some? ==> 1 <= r.end.value < r.start && IsPred(ws, j, r.end.value - 1) &&
                     forall k :: r.end.value - 1 < k < r.start - 1 ==> !IsPred(ws, j, k))
  }

  /** The predecessors of `ws[j]`, 1-based, in increasing order (the `prevList` loop). */
  method PrevList(ws: seq<Candidate>, j: int) returns (prevList: seq<int>)
    requires 0 <= j < |ws|
    ensures forall m, n :: 0 <= m < n < |prevList| ==> prevList[m] < prevList[n]
    ensures forall v :: v in prevList <==> 1 <= v <= |ws| && IsPred(ws, j, v - 1)
  {
    var tu1 := ws[j];
    var pos := 0;
    prevList := [];
    for k := 0 to |ws|
      invariant pos == k
      invariant forall m, n :: 0 <= m < n < |prevList| ==> prevList[m] < prevList[n]
      invariant forall m :: 0 <= m < |prevList| ==> prevList[m] <= k
      invariant forall v :: v in prevList <==> 1 <= v <= k && IsPred(ws, j, v - 1)
    {
      var tu2 := ws[k];
      if IsNotIntersecting(tu1.base, tu2.base) && tu1.base.start == tu2.base.end + 1 {
        prevList := prevList + [pos + 1];
      }
      pos := pos + 1;
    }
  }

  /** The `MaybeRange` built from the reversed `prevList`. */
  lemma RangeOfPrevList(ws: seq<Candidate>, j: int, prevList: seq<int>)
    requires 0 <= j < |ws|
    requires forall m, n :: 0 <= m < n < |prevList| ==> prevList[m] < prevList[n]
    requires forall v :: v in prevList <==> 1 <= v <= |ws| && IsPred(ws, j, v - 1)
    ensures var r := Collections.Reverse(prevList);
            IsPredRange(ws, j, if |r| == 0 then MaybeRange(0, None)
                               else if |r| == 1 then MaybeRange(r[0], None)
                               else MaybeRange(r[0], Some(r[1])))
  {
    var n := |prevList|;
    forall k | 0 <= k < |ws| && IsPred(ws, j, k)
      ensures n >= 1 && k + 1 <= prevList[n - 1]
      ensures n == 1 ==> k + 1 == prevList[0]
      ensures n >= 2 && k + 1 < prevList[n - 1] ==> k + 1 <= prevList[n - 2]
    {
      assert k + 1 in prevList;
      var m :| 0 <= m < n && prevList[m] == k + 1;
      if m < n - 1 {
        assert prevList[m] < prevList[n - 1];
      }
      if n >= 2 && m < n - 2 {
        assert prevList[m] < prevList[n - 2];
      }
    }
    if n >= 1 {
      assert prevList[n - 1] in prevList;
    }
    if n >= 2 {
      assert prevList[n - 2] in prevList;
      assert prevList[n - 2] < prevList[n - 1];
    }
  }

  /** The `lst` loop of `optComponent`: each candidate with its predecessor range. */
  method PredecessorTable(ws: seq<Candidate>) returns (lst: seq<Entry>)
    ensures |lst| == |ws|
    ensures forall i :: 0 <= i < |ws| ==> lst[i].cand == ws[i] && IsPredRange(ws, i, lst[i].range)
  {
    lst := [];
    for i := 0 to |ws|
      invariant |lst| == i
      invariant forall t :: 0 <= t < i ==> lst[t].cand == ws[t] && IsPredRange(ws, t, lst[t].range)
    {
      var tu1 := ws[i];
      var prevList := PrevList(ws, i);
      RangeOfPrevList(ws, i, prevList);
      if prevList != [] {
        prevList := Collections.Reverse(prevList);
      }
      var range;
      if |prevList| == 0 {
        range := MaybeRange(0, None);
      } else if |prevList| == 1 {
        range := MaybeRange(prevList[0], None);
      } else {
        range := MaybeRange(prevList[0], Some(prevList[1]));
      }
      lst := lst + [Entry(tu1, range)];
    }
  }

  /** Ends never decrease along the table. */
  predicate EndsSorted(lst: seq<Entry>) {
    forall i, k :: 0 <= i < k < |lst| ==> End(lst[i]) <= End(lst[k])
  }

  /**
   * What the dynamic program relies on at entry `i`: a well-formed position,
   * a predecessor index below its own that ends right before it starts, and
   * a second predecessor just before the first, with the same end.
   */
  predicate EntryOK(lst: seq<Entry>, i: int)
    requires 0 <= i < |lst|
  {
    var r := lst[i].range;
    && Start(lst[i]) <= End(lst[i])
    && 0 <= r.start <= i
    && (r.start >= 1 ==> End(lst[r.start - 1]) + 1 == Start(lst[i]))
    && (r.end.Some? ==> 2 <= r.start && r.end.value == r.start - 1 && End(lst[r.start - 2]) == End(lst[r.start - 1]))
  }

  /** The table the dynamic program runs on. */
  predicate DPTable(lst: seq<Entry>) {
    EndsSorted(lst) && forall i :: 0 <= i < |lst| ==> EntryOK(lst, i)
  }

  /** On candidates sorted by end with well-formed positions, the predecessor table satisfies `DPTable`. */
  lemma PredecessorTableIsDP(ws: seq<Candidate>, lst: seq<Entry>)
    requires Collections.SortedBy(ws, EndOf)
    requires forall i :: 0 <= i < |ws| ==> ws[i].base.start <= ws[i].base.end
    requires |lst| == |ws|
    requires forall i :: 0 <= i < |ws| ==> lst[i].cand == ws[i] && IsPredRange(ws, i, lst[i].range)
    ensures DPTable(lst)
  {
    forall i, k | 0 <= i < k < |lst| ensures End(lst[i]) <= End(lst[k]) {
      assert EndOf(ws[i]) <= EndOf(ws[k]);
    }
    forall i | 0 <= i < |lst| ensures EntryOK(lst, i) {
      EntryIsOK(ws, lst, i);
    }
  }

  /** One entry of the predecessor table. */
  lemma EntryIsOK(ws: seq<Candidate>, lst: seq<Entry>, i: int)
    requires Collections.SortedBy(ws, EndOf)
    requires forall i :: 0 <= i < |ws| ==> ws[i].base.start <= ws[i].base.end
    requires |lst| == |ws| && 0 <= i < |ws|
    requires forall i :: 0 <= i < |ws| ==> lst[i].cand == ws[i]
    requires IsPredRange(ws, i, lst[i].range)
    ensures EntryOK(lst, i)
  {
    var r := lst[i].range;
    if r.start >= 1 {
      PredBefore(ws, i, r.start - 1);
    }
    if r.end.Some? {
      var e := r.end.value;
      PredBefore(ws, i, e - 1);
      assert e < r.start - 1 ==> IsPred(ws, i, e) by {
        if e < r.start - 1 {
          assert EndOf(ws[e - 1]) <= EndOf(ws[e]) <= EndOf(ws[r.start - 1]);
        }
      }
    }
  }

  /** A predecessor lies before its successor in a list sorted by end. */
  lemma PredBefore(ws: seq<Candidate>, j: int, k: int)
    requires Collections.SortedBy(ws, EndOf)
    requires 0 <= j < |ws| && ws[j].base.start <= ws[j].base.end
    requires IsPred(ws, j, k)
    ensures k < j
  {
    assert EndOf(ws[k]) < EndOf(ws[j]);
  }

  // ----------------------------------------------------- the recurrence

  /**
   * The value `opt(j)` computes, without the memo: the best score of the
   * first `j` entries when entry `j` is chosen after its first predecessor,
   * or, when entry `j - 1` ends where entry `j` does, when it is skipped.
   */
  function OptValue(bigrams: map<string, int>, lst: seq<Entry>, j: int): Option<real>
    requires DPTable(lst) && 0 <= j <= |lst|
    decreases j, 1
  {
    if j == 0 then None
    else
      Max(Some(ChooseValue(bigrams, lst, j)), SkipValue(bigrams, lst, j))
  }

  /** The "not choose j" argument: the recurrence at `j - 1` when entry `j - 1` (circularly) ends where `j` ends. */
  function SkipValue(bigrams: map<string, int>, lst: seq<Entry>, j: int): Option<real>
    requires DPTable(lst) && 1 <= j <= |lst|
    decreases j, 0
  {
    if End(CircularGet(lst, j - 2)) == End(lst[j - 1]) then OptValue(bigrams, lst, j - 1) else None
  }

  /** The score of choosing entry `j` after its first predecessor. */
  function ChooseValue(bigrams: map<string, int>, lst: seq<Entry>, j: int): real
    requires DPTable(lst) && 1 <= j <= |lst|
    decreases j, 0
  {
    var next := lst[j - 1];
    assert EntryOK(lst, j - 1);
    Add(OptValue(bigrams, lst, next.range.start), next.cand.score, Penalize(bigrams, lst, j, next.range.start))
  }

  /** The recurrence has a value for every non-empty prefix, at least the score of choosing the last entry. */
  lemma OptValuePresent(bigrams: map<string, int>, lst: seq<Entry>, j: int)
    requires DPTable(lst) && 1 <= j <= |lst|
    ensures OptValue(bigrams, lst, j).Some?
    ensures ChooseValue(bigrams, lst, j) <= OptValue(bigrams, lst, j).value
  {
  }

  /**
   * At `j = 1` the skip branch reads `lst.get(-1)`, the last entry, but
   * yields no value whichever branch it takes: `opt(1)` is the value of
   * choosing the first entry.
   */
  lemma OptAtOne(bigrams: map<string, int>, lst: seq<Entry>)
    requires DPTable(lst) && |lst| >= 1
    ensures OptValue(bigrams, lst, 1) == Some(ChooseValue(bigrams, lst, 1))
  {
  }

  /**
   * In the table the recurrence runs on, a predecessor is always adjacent,
   * so `penalize` never takes its last branch: after a predecessor it is the
   * bigram reward or 0.
   */
  lemma PenalizeInTable(bigrams: map<string, int>, lst: seq<Entry>, j: int)
    requires DPTable(lst) && 1 <= j <= |lst| && 1 <= lst[j - 1].range.start < j
    ensures var prev := lst[lst[j - 1].range.start - 1];
            var key := BigramKey(prev.cand.base.ngram, lst[j - 1].cand.base.ngram);
            && Start(lst[j - 1]) - End(prev) == 1
            && Penalize(bigrams, lst, j, lst[j - 1].range.start) ==
               if key in bigrams then Div(RelativeFrequency(bigrams[key]), prev.cand.score) - lst[j - 1].cand.score
               else 0.0
  {
    assert EntryOK(lst, j - 1);
  }

  /** Every memo entry holds the value of the recurrence. */
  ghost predicate MemoSound(bigrams: map<string, int>, lst: seq<Entry>, memo: map<int, real>)
    requires DPTable(lst)
  {
    forall k :: k in memo ==> 0 <= k < |lst| && OptValue(bigrams, lst, k + 1) == Some(memo[k])
  }

  /** The memo holds, with each entry, the entries its computation stored first. */
  predicate MemoClosed(lst: seq<Entry>, memo: map<int, real>) {
    forall k :: k in memo ==>
      && 0 <= k < |lst|
      && (lst[k].range.start >= 1 ==> lst[k].range.start - 1 in memo)
      && (k >= 1 && End(lst[k - 1]) == End(lst[k]) ==> k - 1 in memo)
  }

  /**
   * `opt(j, lst, memo)`: returns the value of the recurrence for the first
   * `j` entries, and leaves in the memo the value of every prefix it
   * computed, keeping what was there.
   */
  method Opt(bigrams: map<string, int>, j: int, lst: seq<Entry>, memo: map<int, real>)
    returns (r: Option<real>, memo': map<int, real>)
    requires DPTable(lst) && 0 <= j <= |lst|
    requires MemoSound(bigrams, lst, memo) && MemoClosed(lst, memo)
    ensures r == OptValue(bigrams, lst, j)
    ensures MemoSound(bigrams, lst, memo') && MemoClosed(lst, memo')
    ensures Keeps(memo, memo')
    ensures j >= 1 ==> j - 1 in memo'
    decreases j, 1
  {
    if j == 0 {
      return None, memo;
    }
    if j - 1 in memo {
      return Some(memo[j - 1]), memo;
    }
    var choose, m1 := Choose(bigrams, j, lst, memo);
    var skip, m2 := Skip(bigrams, j, lst, m1);
    var max := Max(Some(choose), skip);
    assert max == OptValue(bigrams, lst, j);
    MemoSoundExtend(bigrams, lst, m2, j, max.value);
    MemoClosedExtend(lst, m2, j, max.value);
    memo' := m2[j - 1 := max.value];
    KeepsStore(memo, m1, m2, j - 1, max.value);
    r := max;
  }

  /** The "choose j" argument of `opt`: the recurrence at the first predecessor, plus score and penalty. */
  method Choose(bigrams: map<string, int>, j: int, lst: seq<Entry>, memo: map<int, real>)
    returns (choose: real, memo': map<int, real>)
    requires DPTable(lst) && 1 <= j <= |lst|
    requires MemoSound(bigrams, lst, memo) && MemoClosed(lst, memo)
    ensures choose == ChooseValue(bigrams, lst, j)
    ensures MemoSound(bigrams, lst, memo') && MemoClosed(lst, memo')
    ensures Keeps(memo, memo')
    ensures lst[j - 1].range.start >= 1 ==> lst[j - 1].range.start - 1 in memo'
    decreases j, 0
  {
    var next := lst[j - 1];
    assert EntryOK(lst, j - 1);
    var first;
    first, memo' := Opt(bigrams, next.range.start, lst, memo);
    choose := Add(first, next.cand.score, Penalize(bigrams, lst, j, next.range.start));
  }

  /** The "not choose j" argument of `opt`: `opt(j - 1)` when entry `j - 1` ends where `j` ends, else null. */
  method Skip(bigrams: map<string, int>, j: int, lst: seq<Entry>, memo: map<int, real>)
    returns (skip: Option<real>, memo': map<int, real>)
    requires DPTable(lst) && 1 <= j <= |lst|
    requires MemoSound(bigrams, lst, memo) && MemoClosed(lst, memo)
    ensures skip == SkipValue(bigrams, lst, j)
    ensures MemoSound(bigrams, lst, memo') && MemoClosed(lst, memo')
    ensures Keeps(memo, memo')
    ensures j >= 2 && End(lst[j - 2]) == End(lst[j - 1]) ==> j - 2 in memo'
    decreases j, 0
  {
    skip, memo' := None, memo;
    if End(CircularGet(lst, j - 2)) == End(lst[j - 1]) {
      skip, memo' := Opt(bigrams, j - 1, lst, memo);
    }
  }

  /** `memo'` keeps every entry of `memo`. */
  predicate Keeps(memo: map<int, real>, memo': map<int, real>) {
    forall k :: k in memo ==> k in memo' && memo'[k] == memo[k]
  }

  /** Two calls that keep the memo, then a store under a new key, keep the memo. */
  lemma KeepsStore(memo: map<int, real>, m1: map<int, real>, m2: map<int, real>, key: int, v: real)
    requires Keeps(memo, m1) && Keeps(m1, m2) && key !in memo
    ensures Keeps(memo, m2[key := v])
  {
  }

  /** Storing the value of prefix `j` keeps the memo sound. */
  lemma MemoSoundExtend(bigrams: map<string, int>, lst: seq<Entry>, memo: map<int, real>, j: int, v: real)
    requires DPTable(lst) && 1 <= j <= |lst|
    requires MemoSound(bigrams, lst, memo)
    requires OptValue(bigrams, lst, j) == Some(v)
    ensures MemoSound(bigrams, lst, memo[j - 1 := v])
  {
    var m := memo[j - 1 := v];
    forall k | k in m ensures 0 <= k < |lst| && OptValue(bigrams, lst, k + 1) == Some(m[k]) {
      if k != j - 1 {
        assert k in memo;
      }
    }
  }

  /** Storing prefix `j` once the sub-problems it depends on are stored keeps the memo closed. */
  lemma MemoClosedExtend(lst: seq<Entry>, memo: map<int, real>, j: int, v: real)
    requires 1 <= j <= |lst|
    requires MemoClosed(lst, memo)
    requires lst[j - 1].range.start >= 1 ==> lst[j - 1].range.start - 1 in memo
    requires j >= 2 && End(lst[j - 2]) == End(lst[j - 1]) ==> j - 2 in memo
    ensures MemoClosed(lst, memo[j - 1 := v])
  {
    var m := memo[j - 1 := v];
    forall k | k in m
      ensures 0 <= k < |lst|
      ensures lst[k].range.start >= 1 ==> lst[k].range.start - 1 in m
      ensures k >= 1 && End(lst[k - 1]) == End(lst[k]) ==> k - 1 in m
    {
      if k != j - 1 {
        assert k in memo;
      }
    }
  }

  // -------------------------------------------------- the reconstruction

  /** `memo.get(k)`: the stored value, or null. */
  function Lookup(memo: map<int, real>, k: int): (r: Option<real>)
    ensures r.Some? <==> k in memo
  {
    if k in memo then Some(memo[k]) else None
  }

  /**
   * `path(j, path, memo, lst)`: appends, last word first, the positions of
   * a chain of entries among the first `j`, each ending before the one
   * appended before it starts.  Every memo lookup it makes finds a value.
   */
  method Path(j: int, path: seq<Position<string>>, memo: map<int, real>, lst: seq<Entry>)
    returns (path': seq<Position<string>>)
    requires DPTable(lst) && 0 <= j <= |lst|
    requires MemoClosed(lst, memo)
    requires j == 0 || j - 1 in memo
    ensures |path| <= |path'| && path'[..|path|] == path
    ensures j == 0 <==> |path'| == |path|
    ensures forall t :: |path| <= t < |path'| ==> exists i :: 0 <= i < j && path'[t] == lst[i].cand.base
    ensures j >= 1 ==> forall t :: |path| <= t < |path'| ==> path'[t].end <= End(lst[j - 1])
    ensures forall t :: |path| <= t < |path'| - 1 ==> path'[t + 1].end < path'[t].start
    decreases j
  {
    if j == 0 {
      return path;
    }
    var b := if j - 2 >= 0 then Lookup(memo, j - 1) == Lookup(memo, j - 2)
             else Lookup(memo, 0).Some? && Lookup(memo, 0).value == 0.0;
    if b {
      if j != 1 {
        path' := Path(j - 1, path, memo, lst);
        SortedEnds(lst, j - 2, j - 1);
      } else {
        path' := path + [lst[0].cand.base];
      }
    } else {
      var prev := lst[j - 1];
      var next := NextIndex(j, memo, lst);
      path' := Path(next, path + [prev.cand.base], memo, lst);
    }
  }

  /**
   * The index `path` continues from after taking entry `j`: its only
   * predecessor, or the one of its two predecessors with the larger stored
   * value (the nearer one on a tie, or when there is none).  Both lookups find
   * a value, and the entry it leads to ends before entry `j` starts.
   */
  method NextIndex(j: int, memo: map<int, real>, lst: seq<Entry>) returns (next: int)
    requires DPTable(lst) && 1 <= j <= |lst|
    requires MemoClosed(lst, memo) && j - 1 in memo
    ensures lst[j - 1].range.end.None? ==> next == lst[j - 1].range.start
    ensures var range := lst[j - 1].range;
            range.end.Some? ==>
              range.start - 1 in memo && range.end.value - 1 in memo &&
              (next == range.start <==> memo[range.start - 1] >= memo[range.end.value - 1]) &&
              (next != range.start ==> next == range.end.value)
    ensures 0 <= next < j
    ensures next >= 1 ==> next - 1 in memo && End(lst[next - 1]) < Start(lst[j - 1])
  {
    var range := lst[j - 1].range;
    assert EntryOK(lst, j - 1);
    var tempI := 0;
    if range.end.None? {
      next := range.Get(tempI);
    } else {
      assert EntryOK(lst, range.start - 1);
      var pList := [Lookup(memo, range.start - 1), Lookup(memo, range.end.value - 1)];
      var maxP := if pList[0].value >= pList[1].value then pList[0].value else pList[1].value;
      next := if pList[0].value == maxP then range.start else range.end.value;
    }
  }

  /** Ends never decrease along a `DPTable`. */
  lemma SortedEnds(lst: seq<Entry>, i: int, k: int)
    requires DPTable(lst) && 0 <= i <= k < |lst|
    ensures End(lst[i]) <= End(lst[k])
  {
  }

  /**
   * The keys of the memo whose value is `v`, in the memo's iteration order
   * (sorting by value first leaves keys of one value in that order).
   */
  method TiedKeys(memo: map<int, real>, v: Option<real>) returns (maxV: seq<int>)
    ensures forall k :: k in maxV <==> k in memo && v == Some(memo[k])
  {
    var keys := Collections.Enumerate(memo.Keys);
    maxV := [];
    for i := 0 to |keys|
      invariant forall k :: k in maxV <==> k in keys[..i] && v == Some(memo[k])
    {
      if v == Some(memo[keys[i]]) {
        maxV := maxV + [keys[i]];
      }
    }
    assert keys[..|keys|] == keys;
  }

  /** Along `p`, each position ends before the next one starts. */
  predicate Chain(p: seq<Position<string>>) {
    forall t :: 0 <= t < |p| - 1 ==> p[t].end < p[t + 1].start
  }

  /** The positions of the entries of `lst`, in order. */
  function TablePositions(lst: seq<Entry>): (ps: seq<Position<string>>)
    ensures |ps| == |lst| && forall i :: 0 <= i < |lst| ==> ps[i] == lst[i].cand.base
  {
    seq(|lst|, i requires 0 <= i < |lst| => lst[i].cand.base)
  }

  /** Every position of `p` is that of an entry of `lst`. */
  predicate DrawnFrom(p: seq<Position<string>>, lst: seq<Entry>) {
    forall t :: 0 <= t < |p| ==> p[t] in TablePositions(lst)
  }

  /** The entry a position of a path drawn from `lst` comes from. */
  lemma DrawnIndex(p: seq<Position<string>>, lst: seq<Entry>, t: int) returns (i: int)
    requires DrawnFrom(p, lst) && 0 <= t < |p|
    ensures 0 <= i < |lst| && p[t] == lst[i].cand.base
  {
    var ps := TablePositions(lst);
    assert p[t] in ps;
    i :| 0 <= i < |ps| && ps[i] == p[t];
  }

  /** Reverses a chain built last word first into reading order. */
  lemma ReversedChain(p: seq<Position<string>>, lst: seq<Entry>)
    requires forall t :: 0 <= t < |p| - 1 ==> p[t + 1].end < p[t].start
    requires DrawnFrom(p, lst)
    ensures Chain(Collections.Reverse(p)) && DrawnFrom(Collections.Reverse(p), lst)
  {
    var r := Collections.Reverse(p);
    forall t | 0 <= t < |r| - 1 ensures r[t].end < r[t + 1].start {
      assert r[t] == p[|p| - 1 - t] && r[t + 1] == p[|p| - 1 - t - 1];
    }
    forall t | 0 <= t < |r| ensures r[t] in TablePositions(lst) {
      assert r[t] == p[|p| - 1 - t];
    }
  }

  /**
   * The reconstruction from index `j` followed by the reversal: a chain of
   * words of the table in reading order, non-empty unless `j` is 0.
   */
  method ReadPath(j: int, memo: map<int, real>, lst: seq<Entry>) returns (path: seq<Position<string>>)
    requires DPTable(lst) && 0 <= j <= |lst|
    requires MemoClosed(lst, memo) && (j == 0 || j - 1 in memo)
    ensures j >= 1 <==> |path| >= 1
    ensures DrawnFrom(path, lst) && Chain(path)
  {
    var built := Path(j, [], memo, lst);
    assert DrawnFrom(built, lst) by {
      forall t | 0 <= t < |built| ensures built[t] in TablePositions(lst) {
        var i :| 0 <= i < j && built[t] == lst[i].cand.base;
        assert TablePositions(lst)[i] == built[t];
      }
    }
    ReversedChain(built, lst);
    path := Collections.Reverse(built);
  }

  /**
   * `calculatePaths`: runs the recurrence over all entries, starts the
   * reconstruction after a memo key that holds the best value (the last one
   * in the map's iteration order), and returns the chain in reading order.
   */
  method CalculatePaths(bigrams: map<string, int>, lst: seq<Entry>) returns (path: seq<Position<string>>)
    requires DPTable(lst) && |lst| >= 1
    ensures |path| >= 1
    ensures DrawnFrom(path, lst) && Chain(path)
  {
    var j := |lst|;
    var result, memo := Opt(bigrams, j, lst, map[]);
    var maxV := TiedKeys(memo, result);
    assert j - 1 in maxV;
    j := maxV[|maxV| - 1] + 1;
    assert maxV[|maxV| - 1] in maxV;
    path := ReadPath(j, memo, lst);
  }

  // ------------------------------------------------------- optComponent

  /** The n-grams along a path, in order. */
  method Ngrams(path: seq<Position<string>>) returns (wordList: seq<string>)
    ensures |wordList| == |path|
    ensures forall t :: 0 <= t < |path| ==> wordList[t] == path[t].ngram
  {
    wordList := [];
    for t := 0 to |path|
      invariant |wordList| == t
      invariant forall u :: 0 <= u < t ==> wordList[u] == path[u].ngram
    {
      wordList := wordList + [path[t].ngram];
    }
  }

  /**
   * `optComponent`: the best chain of words of one component.  `s` is where
   * its first word starts and `e` the largest end in the component; the
   * words are those of a chain of the component's candidates, in reading
   * order and without overlaps, inside `[s, e]`; `path` holds their positions.
   */
  method OptComponent(bigrams: map<string, int>, comp: set<Candidate>)
    returns (s: int, e: int, wordList: seq<string>, path: seq<Position<string>>)
    requires comp != {}
    requires forall c :: c in comp ==> c.base.start <= c.base.end
    ensures |path| >= 1 && |wordList| == |path|
    ensures forall t :: 0 <= t < |path| ==> wordList[t] == path[t].ngram
    ensures forall t :: 0 <= t < |path| ==> exists c :: c in comp && path[t] == c.base
    ensures Chain(path)
    ensures s == path[0].start && s <= e
    ensures forall c :: c in comp ==> c.base.end <= e
    ensures exists c :: c in comp && c.base.end == e
    ensures forall t :: 0 <= t < |path| ==> s <= path[t].start <= path[t].end <= e
    ensures forall c :: c in comp && |comp| == 1 ==> path == [c.base] && wordList == [c.base.ngram]
  {
    var lst := ComponentTable(comp);
    path := CalculatePaths(bigrams, lst);
    wordList := Ngrams(path);
    s := path[0].start;
    e := End(lst[|lst| - 1]);
    ComponentChain(comp, lst, path, e);
  }

  /** The entries of one component, sorted by end, with their predecessors. */
  method ComponentTable(comp: set<Candidate>) returns (lst: seq<Entry>)
    requires forall c :: c in comp ==> c.base.start <= c.base.end
    ensures DPTable(lst) && |lst| == |comp|
    ensures forall i :: 0 <= i < |lst| ==> lst[i].cand in comp
    ensures forall c :: c in comp ==> exists i :: 0 <= i < |lst| && lst[i].cand == c
  {
    var xs := Collections.Enumerate(comp);
    var meaningfulWords := Collections.SortBy(xs, EndOf);
    forall x ensures x in meaningfulWords <==> x in comp {
      Collections.SortByMembers(xs, EndOf, x);
    }
    lst := PredecessorTable(meaningfulWords);
    PredecessorTableIsDP(meaningfulWords, lst);
    forall c | c in comp ensures exists i :: 0 <= i < |lst| && lst[i].cand == c {
      var i :| 0 <= i < |meaningfulWords| && meaningfulWords[i] == c;
      assert lst[i].cand == c;
    }
  }

  /** A chain drawn from a component's table lies inside the component's extent. */
  lemma ComponentChain(comp: set<Candidate>, lst: seq<Entry>, path: seq<Position<string>>, e: int)
    requires DPTable(lst) && |lst| >= 1 && e == End(lst[|lst| - 1])
    requires forall i :: 0 <= i < |lst| ==> lst[i].cand in comp
    requires forall c :: c in comp ==> exists i :: 0 <= i < |lst| && lst[i].cand == c
    requires |path| >= 1 && DrawnFrom(path, lst) && Chain(path)
    ensures forall t :: 0 <= t < |path| ==> exists c :: c in comp && path[t] == c.base
    ensures forall c :: c in comp ==> c.base.end <= e
    ensures exists c :: c in comp && c.base.end == e
    ensures forall t :: 0 <= t < |path| ==> path[0].start <= path[t].start <= path[t].end <= e
    ensures forall c :: c in comp && |comp| == 1 ==> path == [c.base]
  {
    forall t | 0 <= t < |path| ensures exists c :: c in comp && path[t] == c.base {
      var i := DrawnIndex(path, lst, t);
      assert lst[i].cand in comp;
    }
    forall c | c in comp ensures c.base.end <= e {
      var i :| 0 <= i < |lst| && lst[i].cand == c;
      SortedEnds(lst, i, |lst| - 1);
    }
    assert lst[|lst| - 1].cand in comp;
    ChainInside(path, lst, e);
    forall c | c in comp && |comp| == 1 ensures path == [c.base] {
      assert |comp - {c}| == 0;
      assert comp == {c};
      SingleCandidatePath(comp, c, path, lst);
    }
  }

  /** A chain of entries in reading order lies between its first start and the table's last end. */
  lemma ChainInside(path: seq<Position<string>>, lst: seq<Entry>, e: int)
    requires DPTable(lst) && |lst| >= 1 && e == End(lst[|lst| - 1]) && |path| >= 1
    requires DrawnFrom(path, lst) && Chain(path)
    ensures forall t :: 0 <= t < |path| ==> path[0].start <= path[t].start <= path[t].end <= e
  {
    forall t | 0 <= t < |path| ensures path[0].start <= path[t].start <= path[t].end <= e {
      var i := DrawnIndex(path, lst, t);
      assert EntryOK(lst, i);
      SortedEnds(lst, i, |lst| - 1);
      ChainStartsIncrease(path, lst, t);
    }
  }

  /** Starts increase along a chain of entries. */
  lemma {:induction false} ChainStartsIncrease(path: seq<Position<string>>, lst: seq<Entry>, t: int)
    requires DPTable(lst) && 0 <= t < |path|
    requires DrawnFrom(path, lst) && Chain(path)
    ensures path[0].start <= path[t].start
    decreases t
  {
    if t > 0 {
      ChainStartsIncrease(path, lst, t - 1);
      var i := DrawnIndex(path, lst, t - 1);
      assert EntryOK(lst, i);
    }
  }

  /** With a single candidate the chain is that candidate alone. */
  lemma SingleCandidatePath(comp: set<Candidate>, c: Candidate, path: seq<Position<string>>, lst: seq<Entry>)
    requires comp == {c} && DPTable(lst)
    requires forall i :: 0 <= i < |lst| ==> lst[i].cand in comp
    requires |path| >= 1 && DrawnFrom(path, lst) && Chain(path)
    ensures path == [c.base]
  {
    var i := DrawnIndex(path, lst, 0);
    assert lst[i].cand == c;
    assert EntryOK(lst, i);
    if |path| >= 2 {
      var k := DrawnIndex(path, lst, 1);
      assert false;
    }
  }
}
