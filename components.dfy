/**
 * `connectedSets`: the candidates become the vertices of a graph with an
 * edge between any two different candidates whose ranges overlap, and the
 * result lists the vertex sets of its connected components.
 *
 * The components are computed here by merging: each candidate joins, in one
 * set, every component collected so far that it touches.  The contract
 * states what a list of connected components is — a partition of the
 * candidates into non-empty, pairwise disjoint, connected sets with no edge
 * between two of them — independently of how it is computed.
 */
module Components {
  import opened Positions
  import opened Candidates

  /** An edge of the overlap graph: two different candidates whose ranges share an index. */
  predicate Edge(a: Candidate, b: Candidate) {
    a != b && !IsNotIntersecting(a.base, b.base)
  }

  /** `x` belongs to the component `s` or has an edge into it. */
  predicate Touches(s: set<Candidate>, x: Candidate) {
    x in s || exists y :: y in s && Edge(x, y)
  }

  /** Some set of the list holds `y`. */
  ghost predicate InSome(sets: seq<set<Candidate>>, y: Candidate) {
    exists k :: 0 <= k < |sets| && y in sets[k]
  }

  /** `c` cuts `s` into two non-empty parts. */
  ghost predicate Splits(s: set<Candidate>, c: set<Candidate>) {
    c <= s && c != {} && c != s
  }

  /** Some edge of the graph leads from the part `c` of `s` to the rest of `s`. */
  ghost predicate Bridged(s: set<Candidate>, c: set<Candidate>) {
    exists y, z :: y in c && z in s && z !in c && Edge(y, z)
  }

  /** `s` is connected: however it is cut in two, an edge joins the parts. */
  ghost predicate Connected(s: set<Candidate>) {
    forall c :: Splits(s, c) ==> Bridged(s, c)
  }

  /** One invariant of the list of components. */
  ghost predicate Components(sets: seq<set<Candidate>>) {
    (forall k :: 0 <= k < |sets| ==> sets[k] != {} && Connected(sets[k])) &&
    (forall k, l :: 0 <= k < |sets| && 0 <= l < |sets| && k != l ==> sets[k] * sets[l] == {}) &&
    (forall k, l, a, b :: 0 <= k < |sets| && 0 <= l < |sets| && k != l && a in sets[k] && b in sets[l] ==> !Edge(a, b))
  }

  /** Edges go both ways: the directed graph is read as undirected. */
  lemma EdgeSymmetric(a: Candidate, b: Candidate)
    ensures Edge(a, b) == Edge(b, a)
  {
  }

  /** A single vertex is connected. */
  lemma SingletonConnected(x: Candidate)
    ensures Connected({x})
  {
    forall c ensures !Splits({x}, c) {
      if c <= {x} && c != {} {
        var y :| y in c;
        assert c == {x};
      }
    }
  }

  /** Two connected sets that share a vertex or are joined by an edge form a connected set. */
  lemma ConnectedUnion(a: set<Candidate>, b: set<Candidate>)
    requires Connected(a) && Connected(b)
    requires (exists y :: y in a && y in b) || (exists y, z :: y in a && z in b && Edge(y, z))
    ensures Connected(a + b)
  {
    forall c | Splits(a + b, c) ensures Bridged(a + b, c) {
      var ca := c * a;
      var cb := c * b;
      if ca != {} && ca != a {
        assert Splits(a, ca);
        var y, z :| y in ca && z in a && z !in ca && Edge(y, z);
        assert z !in c;
      } else if cb != {} && cb != b {
        assert Splits(b, cb);
        var y, z :| y in cb && z in b && z !in cb && Edge(y, z);
        assert z !in c;
      } else if ca == a {
        assert cb == {};
        forall y | y in a ensures y in c { assert y in ca; }
        forall y | y in b ensures y !in c { assert y !in cb; }
        assert !exists y :: y in a && y in b;
        var y, z :| y in a && z in b && Edge(y, z);
        assert y in c && z !in c;
      } else {
        assert ca == {};
        var w :| w in c;
        assert w !in ca;
        assert w in cb;
        assert cb == b;
        forall y | y in b ensures y in c { assert y in cb; }
        forall y | y in a ensures y !in c { assert y !in ca; }
        assert !exists y :: y in a && y in b;
        var y, z :| y in a && z in b && Edge(y, z);
        EdgeSymmetric(y, z);
        assert z in c && y !in c;
      }
    }
  }

  /**
   * Adds the vertex `x` to a list of components: the components `x` touches
   * and `x` itself become one, the others stay as they are.
   */
  method Merge(sets: seq<set<Candidate>>, x: Candidate) returns (result: seq<set<Candidate>>)
    requires Components(sets)
    ensures Components(result)
    ensures forall y :: InSome(result, y) <==> InSome(sets, y) || y == x
  {
    var merged := {x};
    var rest: seq<set<Candidate>> := [];
    ghost var idx: seq<int> := [];
    SingletonConnected(x);
    for k := 0 to |sets|
      invariant |idx| == |rest|
      invariant forall m :: 0 <= m < |idx| ==> 0 <= idx[m] < k && rest[m] == sets[idx[m]] && !Touches(sets[idx[m]], x)
      invariant forall m, n :: 0 <= m < n < |idx| ==> idx[m] < idx[n]
      invariant forall t :: 0 <= t < k && !Touches(sets[t], x) ==> exists m :: 0 <= m < |idx| && idx[m] == t
      invariant forall y :: y in merged <==> y == x || exists t :: 0 <= t < k && Touches(sets[t], x) && y in sets[t]
      invariant Connected(merged)
    {
      if Touches(sets[k], x) {
        ConnectedUnion(merged, sets[k]);
        merged := merged + sets[k];
      } else {
        ghost var oldIdx := idx;
        rest := rest + [sets[k]];
        idx := idx + [k];
        forall t | 0 <= t < k + 1 && !Touches(sets[t], x) ensures exists m :: 0 <= m < |idx| && idx[m] == t {
          if t == k {
            assert idx[|idx| - 1] == t;
          } else {
            var m :| 0 <= m < |oldIdx| && oldIdx[m] == t;
            assert idx[m] == t;
          }
        }
      }
    }
    result := rest + [merged];
    MergeComponents(sets, x, merged, rest, idx);
  }

  /** A component that `x` does not touch shares no vertex and no edge with the merged set. */
  lemma Untouched(sets: seq<set<Candidate>>, x: Candidate, merged: set<Candidate>, s: int)
    requires Components(sets)
    requires forall y :: y in merged <==> y == x || exists t :: 0 <= t < |sets| && Touches(sets[t], x) && y in sets[t]
    requires 0 <= s < |sets| && !Touches(sets[s], x)
    ensures forall y :: y in sets[s] ==> y !in merged
    ensures forall y, z :: y in sets[s] && z in merged ==> !Edge(y, z) && !Edge(z, y)
  {
    forall y, t | y in sets[s] && 0 <= t < |sets| && Touches(sets[t], x)
      ensures y !in sets[t] && forall z :: z in sets[t] ==> !Edge(y, z) && !Edge(z, y)
    {
      assert t != s;
      assert y !in sets[s] * sets[t];
      forall z | z in sets[t] ensures !Edge(y, z) && !Edge(z, y) {
        EdgeSymmetric(y, z);
      }
    }
    forall y | y in sets[s] ensures !Edge(y, x) && !Edge(x, y) {
      EdgeSymmetric(y, x);
    }
  }

  /** What the merge loop leaves behind makes a list of components with one more vertex. */
  lemma MergeComponents(sets: seq<set<Candidate>>, x: Candidate, merged: set<Candidate>,
                        rest: seq<set<Candidate>>, idx: seq<int>)
    requires Components(sets)
    requires |idx| == |rest|
    requires forall m :: 0 <= m < |idx| ==> 0 <= idx[m] < |sets| && rest[m] == sets[idx[m]] && !Touches(sets[idx[m]], x)
    requires forall m, n :: 0 <= m < n < |idx| ==> idx[m] < idx[n]
    requires forall t :: 0 <= t < |sets| && !Touches(sets[t], x) ==> exists m :: 0 <= m < |idx| && idx[m] == t
    requires forall y :: y in merged <==> y == x || exists t :: 0 <= t < |sets| && Touches(sets[t], x) && y in sets[t]
    requires Connected(merged)
    ensures Components(rest + [merged])
    ensures forall y :: InSome(rest + [merged], y) <==> InSome(sets, y) || y == x
  {
    var result := rest + [merged];
    forall k | 0 <= k < |result| ensures result[k] != {} && Connected(result[k]) {
      if k == |rest| {
        assert x in merged;
      }
    }
    forall k, l | 0 <= k < |result| && 0 <= l < |result| && k != l
      ensures result[k] * result[l] == {}
      ensures forall a, b :: a in result[k] && b in result[l] ==> !Edge(a, b)
    {
      if k < |rest| && l < |rest| {
        assert idx[k] != idx[l] by {
          if k < l { assert idx[k] < idx[l]; } else { assert idx[l] < idx[k]; }
        }
      } else if k < |rest| {
        Untouched(sets, x, merged, idx[k]);
      } else {
        Untouched(sets, x, merged, idx[l]);
      }
    }
    forall y ensures InSome(result, y) <==> InSome(sets, y) || y == x {
      if InSome(sets, y) {
        var t :| 0 <= t < |sets| && y in sets[t];
        if !Touches(sets[t], x) {
          var m :| 0 <= m < |idx| && idx[m] == t;
          assert y in result[m];
        } else {
          assert y in result[|rest|];
        }
      }
      if y == x {
        assert y in result[|rest|];
      }
      if InSome(result, y) {
        var k :| 0 <= k < |result| && y in result[k];
        if k < |rest| {
          assert y in sets[idx[k]];
        }
      }
    }
  }

  /**
   * `connectedSets`: the vertex sets of the connected components of the
   * overlap graph on `words`.  Every candidate lies in exactly one set, each
   * set is non-empty and connected, and no edge joins two different sets.
   */
  method ConnectedSets(words: seq<Candidate>) returns (sets: seq<set<Candidate>>)
    ensures Components(sets)
    ensures forall y :: InSome(sets, y) <==> y in words
  {
    sets := [];
    for i := 0 to |words|
      invariant Components(sets)
      invariant forall y :: InSome(sets, y) <==> y in words[..i]
    {
      sets := Merge(sets, words[i]);
      assert words[..i + 1] == words[..i] + [words[i]];
    }
    assert words[..|words|] == words;
  }

  /**
   * A connected set of well-formed candidates covers every index between the
   * start of one member and the end of another: its ranges leave no gap.
   */
  lemma ConnectedCovers(s: set<Candidate>, a: Candidate, b: Candidate, i: int)
    requires Connected(s) && a in s && b in s
    requires forall c :: c in s ==> c.base.start <= c.base.end
    ensures a.base.start <= i <= b.base.end ==> exists c :: c in s && Covers(c.base, i)
  {
    if a.base.start <= i <= b.base.end {
      var cut := set c | c in s && c.base.end < i;
      if a in cut {
        assert b !in cut;
        assert Splits(s, cut);
        var y, z :| y in cut && z in s && z !in cut && Edge(y, z);
        assert Covers(z.base, i);
      } else {
        assert Covers(a.base, i);
      }
    }
  }

  /** Candidates of two different components share no index. */
  lemma ApartAcross(sets: seq<set<Candidate>>, k: int, l: int, a: Candidate, b: Candidate)
    requires Components(sets)
    requires 0 <= k < |sets| && 0 <= l < |sets| && k != l && a in sets[k] && b in sets[l]
    ensures forall i :: !(Covers(a.base, i) && Covers(b.base, i))
  {
    assert a !in sets[k] * sets[l];
    assert !Edge(a, b);
  }

  /** In a list of components, a shared vertex or an edge means the same set. */
  lemma SameComponent(sets: seq<set<Candidate>>, k: int, l: int, a: Candidate, b: Candidate)
    requires Components(sets)
    requires 0 <= k < |sets| && 0 <= l < |sets| && a in sets[k] && b in sets[l]
    requires a == b || Edge(a, b)
    ensures k == l
  {
    if a == b {
      assert a in sets[k] * sets[l];
    }
  }
}
