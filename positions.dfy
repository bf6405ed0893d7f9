/**
 * The immutable value classes `Position<T>`, `SuffixedPosition`,
 * `ScorePosition<T>` and `MaybeRange`, with Java's `equals` and `hashCode`
 * as they are written.  `equals` takes any object, so the run-time class of
 * the argument is part of the model (`JavaObject`).
 */
module Positions {
  import opened JavaUtil

  /** An n-gram at the inclusive range [start, end] of the normalised text. */
  datatype Position<T> = Position(ngram: T, start: int, end: int) {
    function GetStart(): int { start }
    function GetEnd(): int { end }
    function GetNgram(): T { ngram }
  }

  /** A `Position<String>` over a window prefix, plus the rest of the text after it. */
  datatype SuffixedPosition = SuffixedPosition(base: Position<string>, suffix: string) {
    function GetPrefix(): string { base.GetNgram() }
    function GetSuffix(): string { suffix }
    function GetStart(): int { base.GetStart() }
    function GetEnd(): int { base.GetEnd() }
  }

  /** A `Position<T>` with a score. */
  datatype ScorePosition<T> = ScorePosition(base: Position<T>, score: real) {
    function GetScore(): real { score }
    function GetNgram(): T { base.GetNgram() }
    function GetStart(): int { base.GetStart() }
    function GetEnd(): int { base.GetEnd() }
  }

  /**
   * Up to two predecessor indices: `end` is absent when there is at most one
   * (and `start` is 0 when there is none).
   */
  datatype MaybeRange = MaybeRange(start: int, end: Option<int>) {
    /** `get(tempI)`: `start` for 0, otherwise `end.get()`, which fails when `end` is absent. */
    function Get(tempI: int): (r: int)
      requires tempI == 0 || end.Some?
      ensures tempI == 0 ==> r == start
      ensures tempI != 0 ==> end == Some(r)
    {
      if tempI == 0 then start else end.value
    }
  }

  /** `new Position(ngram, start, end)`: the getters give back the arguments. */
  function NewPosition<T>(ngram: T, start: int, end: int): (p: Position<T>)
    ensures p.GetNgram() == ngram && p.GetStart() == start && p.GetEnd() == end
  {
    Position(ngram, start, end)
  }

  /** `new SuffixedPosition(ngram, start, end, suffix)`. */
  function NewSuffixedPosition(ngram: string, start: int, end: int, suffix: string): (sp: SuffixedPosition)
    ensures sp.GetPrefix() == ngram && sp.GetSuffix() == suffix
    ensures sp.GetStart() == start && sp.GetEnd() == end
  {
    SuffixedPosition(Position(ngram, start, end), suffix)
  }

  /** `new ScorePosition(ngram, score, start, end)`. */
  function NewScorePosition<T>(ngram: T, score: real, start: int, end: int): (sp: ScorePosition<T>)
    ensures sp.GetScore() == score && sp.GetNgram() == ngram
    ensures sp.GetStart() == start && sp.GetEnd() == end
  {
    ScorePosition(Position(ngram, start, end), score)
  }

  /** The objects `equals` may be handed, by run-time class. */
  datatype JavaObject =
    | Null
    | PlainPosition(p: Position<string>)
    | Suffixed(sp: SuffixedPosition)
    | Scored(scp: ScorePosition<string>)
    | Range(mr: MaybeRange)
    | Other(identity: int)   // an object of an unrelated class

  /** `o instanceof Position`, giving the object viewed as a `Position`. */
  function AsPosition(o: JavaObject): Option<Position<string>> {
    match o
    case PlainPosition(p) => Some(p)
    case Suffixed(sp) => Some(sp.base)
    case Scored(scp) => Some(scp.base)
    case _ => None
  }

  /** `Position.equals`: any `Position`, subclasses included, with the same three fields. */
  predicate PositionEquals(p: Position<string>, o: JavaObject): (r: bool)
    ensures r <==> AsPosition(o) == Some(p)
  {
    AsPosition(o).Some? &&
    var q := AsPosition(o).value;
    p.GetStart() == q.GetStart() && p.GetEnd() == q.GetEnd() && p.GetNgram() == q.GetNgram()
  }

  /** `SuffixedPosition.equals`: same run-time class, `Position.equals`, equal suffix. */
  predicate SuffixedEquals(sp: SuffixedPosition, o: JavaObject) {
    o.Suffixed? && PositionEquals(sp.base, o) && sp.suffix == o.sp.suffix
  }

  /** `ScorePosition.equals`: same run-time class, `Position.equals`, equal score. */
  predicate ScoreEquals(scp: ScorePosition<string>, o: JavaObject) {
    o.Scored? && PositionEquals(scp.base, o) && scp.score == o.scp.score
  }

  /** `MaybeRange.equals`: same run-time class, equal `start` and equal `end`. */
  predicate MaybeRangeEquals(r: MaybeRange, o: JavaObject) {
    o.Range? && r.start == o.mr.start && r.end == o.mr.end
  }

  /**
   * `a.equals(b)`, dispatched on the run-time class of `a` (which is not null):
   * reflexive, false for null, and identity for every class but `Position`.
   */
  predicate Equals(a: JavaObject, b: JavaObject): (r: bool)
    requires !a.Null?
    ensures a == b ==> r
    ensures b.Null? ==> !r
    ensures !a.PlainPosition? ==> (r <==> a == b)
  {
    match a
    case PlainPosition(p) => PositionEquals(p, b)
    case Suffixed(sp) => SuffixedEquals(sp, b)
    case Scored(scp) => ScoreEquals(scp, b)
    case Range(r) => MaybeRangeEquals(r, b)
    case Other(_) => a == b
  }

  /** `Objects.hash(ngram, start, end)`. */
  function PositionHash(p: Position<string>): (h: int)
    ensures IsInt32(h)
  {
    HashStep(HashStep(HashStep(1, StringHash(p.ngram)), p.start), p.end)
  }

  /** `Objects.hash(super.hashCode(), suffix)`. */
  function SuffixedHash(sp: SuffixedPosition): (h: int)
    ensures IsInt32(h)
  {
    HashStep(HashStep(1, PositionHash(sp.base)), StringHash(sp.suffix))
  }

  /** `Objects.hash(super.hashCode(), score)`; `Double.hashCode` is the parameter `doubleHash`. */
  function ScoreHash(scp: ScorePosition<string>, doubleHash: real -> int): (h: int)
    ensures IsInt32(h)
  {
    HashStep(HashStep(1, PositionHash(scp.base)), doubleHash(scp.score))
  }

  /** `Objects.hash(start, end)`. */
  function MaybeRangeHash(r: MaybeRange): (h: int)
    ensures IsInt32(h)
  {
    HashStep(HashStep(1, r.start), OptionalIntHash(r.end))
  }

  /** `o.hashCode()`, dispatched on the run-time class of `o`. */
  function HashCode(o: JavaObject, doubleHash: real -> int): (h: int)
    requires !o.Null?
    ensures IsInt32(h)
  {
    match o
    case PlainPosition(p) => PositionHash(p)
    case Suffixed(sp) => SuffixedHash(sp)
    case Scored(scp) => ScoreHash(scp, doubleHash)
    case Range(r) => MaybeRangeHash(r)
    case Other(id) => Wrap32(id)
  }

  /** `Position.equals` holds exactly when start, end and ngram agree, and is reflexive. */
  lemma PositionEqualsFields(p: Position<string>, q: Position<string>)
    ensures PositionEquals(p, PlainPosition(q)) <==> p == q
    ensures PositionEquals(p, PlainPosition(p))
  {
  }

  /** A plain `Position` equals a `SuffixedPosition` or `ScorePosition` with the same three fields. */
  lemma PositionEqualsSubclasses(p: Position<string>, suffix: string, score: real)
    ensures PositionEquals(p, Suffixed(SuffixedPosition(p, suffix)))
    ensures PositionEquals(p, Scored(ScorePosition(p, score)))
  {
  }

  /** A `SuffixedPosition` equals exactly the `SuffixedPosition`s with the same fields, and nothing else. */
  lemma SuffixedEqualsExactly(sp: SuffixedPosition, o: JavaObject)
    ensures SuffixedEquals(sp, o) <==> o == Suffixed(sp)
  {
  }

  /** A `ScorePosition` equals exactly the `ScorePosition`s with the same fields: a different score is unequal. */
  lemma ScoreEqualsExactly(scp: ScorePosition<string>, o: JavaObject)
    ensures ScoreEquals(scp, o) <==> o == Scored(scp)
  {
  }

  /** A `MaybeRange` never equals null or an object of another class, and otherwise compares both fields. */
  lemma MaybeRangeEqualsExactly(r: MaybeRange, o: JavaObject)
    ensures MaybeRangeEquals(r, o) <==> o == Range(r)
  {
  }

  /** Within each class, equal objects have equal hash codes. */
  lemma HashConsistentWithinClass(a: JavaObject, b: JavaObject, doubleHash: real -> int)
    requires !a.Null? && !b.Null?
    requires a.PlainPosition? <==> b.PlainPosition?
    requires Equals(a, b)
    ensures HashCode(a, doubleHash) == HashCode(b, doubleHash)
  {
  }

  /**
   * As written, `equals` is not symmetric across the hierarchy: a plain
   * `Position` equals a `SuffixedPosition` (or `ScorePosition`) with the same
   * fields, but that object does not equal the plain `Position`.
   */
  lemma EqualsAsymmetric(p: Position<string>, suffix: string, score: real)
    ensures Equals(PlainPosition(p), Suffixed(SuffixedPosition(p, suffix)))
    ensures !Equals(Suffixed(SuffixedPosition(p, suffix)), PlainPosition(p))
    ensures Equals(PlainPosition(p), Scored(ScorePosition(p, score)))
    ensures !Equals(Scored(ScorePosition(p, score)), PlainPosition(p))
  {
  }

  /**
   * As written, equal objects can have different hash codes:
   * `Position("ab", 0, 1)` equals `SuffixedPosition("ab", 0, 1, "cd")`, but
   * their hash codes are 3013697 and 93428737.
   */
  lemma EqualButHashesDiffer(doubleHash: real -> int)
    ensures var a := PlainPosition(Position("ab", 0, 1));
            var b := Suffixed(SuffixedPosition(Position("ab", 0, 1), "cd"));
            Equals(a, b) && HashCode(a, doubleHash) == 3013697 && HashCode(b, doubleHash) == 93428737
  {
    assert StringHash("a") == 97;
    assert StringHash("ab") == 3105;
    assert StringHash("c") == 99;
    assert StringHash("cd") == 3169;
  }

  /** `Position.equals` as evidently intended: same run-time class, like its subclasses. */
  predicate StrictPositionEquals(p: Position<string>, o: JavaObject) {
    o.PlainPosition? && PositionEquals(p, o)
  }

  /** `a.equals(b)` with the corrected `Position.equals`. */
  predicate StrictEquals(a: JavaObject, b: JavaObject)
    requires !a.Null?
  {
    if a.PlainPosition? then StrictPositionEquals(a.p, b) else Equals(a, b)
  }

  /** With the correction `equals` is symmetric and consistent with `hashCode`. */
  lemma StrictEqualsContract(a: JavaObject, b: JavaObject, doubleHash: real -> int)
    requires !a.Null? && !b.Null?
    ensures StrictEquals(a, b) <==> StrictEquals(b, a)
    ensures StrictEquals(a, b) ==> HashCode(a, doubleHash) == HashCode(b, doubleHash)
    ensures StrictEquals(a, a)
  {
  }
}
