/**
 * An immutable route: a start node and the ordered segments travelled from
 * it. A path without segments stands for the start node alone. Extending a
 * path yields a new path and leaves the original as it was.
 */
module Paths {

  /** One step of a path: from `start` to `end` at cost `cost`. */
  datatype Segment<T> = Segment(start: T, end: T, cost: real)

  /** The total cost of a sequence of segments. */
  function SumCosts<T>(segs: seq<Segment<T>>): real
  {
    if segs == [] then 0.0 else SumCosts(segs[..|segs| - 1]) + segs[|segs| - 1].cost
  }

  datatype Path<T(==)> = Path(start: T, segments: seq<Segment<T>>) {

    /** The path that stays at `n`: no segments, cost 0. */
    static function Singleton(n: T): (p: Path<T>)
      ensures p.start == n && p.End() == n && p.Cost() == 0.0
      ensures |p.segments| == 0 && p.Contiguous()
    {
      Path(n, [])
    }

    /** The node the path currently ends at. */
    function End(): T
    {
      if segments == [] then start else segments[|segments| - 1].end
    }

    /** The accumulated cost: the sum of the segment costs. */
    function Cost(): real
    {
      SumCosts(segments)
    }

    /** The first segment leaves from `start`, and each later one from where the previous one ended. */
    ghost predicate Contiguous()
    {
      && (segments != [] ==> segments[0].start == start)
      && forall i :: 0 < i < |segments| ==> segments[i].start == segments[i - 1].end
    }

    /** No segment has negative cost. */
    predicate NonNegativeCosts()
    {
      forall k :: 0 <= k < |segments| ==> 0.0 <= segments[k].cost
    }

    /**
     * A new path with one more segment, from the current end to `next` at
     * cost `w`; the receiver is untouched.
     */
    function Extend(next: T, w: real): (p: Path<T>)
      ensures p.start == start && p.End() == next
      ensures |p.segments| == |segments| + 1 && p.segments[..|segments|] == segments
      ensures p.segments[|segments|] == Segment(End(), next, w)
      ensures p.Cost() == Cost() + w
    {
      var p := Path(start, segments + [Segment(End(), next, w)]);
      assert p.segments[..|segments|] == segments;
      p
    }

    /** The path without its last segment. */
    function DropLast(): (p: Path<T>)
      requires segments != []
      ensures p.start == start && |p.segments| == |segments| - 1
      ensures forall k :: 0 <= k < |p.segments| ==> p.segments[k] == segments[k]
      ensures Cost() == p.Cost() + segments[|segments| - 1].cost
    {
      Path(start, segments[..|segments| - 1])
    }
  }

  /** Extending a contiguous path keeps it contiguous. */
  lemma ExtendContiguous<T>(p: Path<T>, next: T, w: real)
    requires p.Contiguous()
    ensures p.Extend(next, w).Contiguous()
  {
    var q := p.Extend(next, w);
    var n := |p.segments|;
    forall i | 0 < i < |q.segments|
      ensures q.segments[i].start == q.segments[i - 1].end
    {
      assert q.segments[i - 1] == p.segments[i - 1];
      if i < n {
        assert q.segments[i] == p.segments[i];
      }
    }
  }

  /** Dropping the last segment keeps a path contiguous, and that segment starts at the new end. */
  lemma DropLastContiguous<T>(p: Path<T>)
    requires p.segments != [] && p.Contiguous()
    ensures p.DropLast().Contiguous()
    ensures p.segments[|p.segments| - 1].start == p.DropLast().End()
  {
    var n := |p.segments|;
    var q := p.DropLast();
    if n > 1 {
      assert p.segments[n - 1].start == p.segments[n - 2].end;
    }
    forall i | 0 < i < |q.segments|
      ensures q.segments[i].start == q.segments[i - 1].end
    {
      assert q.segments[i - 1] == p.segments[i - 1] && q.segments[i] == p.segments[i];
    }
  }

  /** A path whose segments all cost at least 0 costs at least 0. */
  lemma {:induction false} CostNonNegative<T>(p: Path<T>)
    requires p.NonNegativeCosts()
    ensures 0.0 <= p.Cost()
    decreases |p.segments|
  {
    if p.segments != [] {
      CostNonNegative(p.DropLast());
    }
  }

  /** A contiguous path is its prefix without the last segment, extended by that segment. */
  lemma DropLastExtend<T>(p: Path<T>)
    requires p.segments != [] && p.Contiguous()
    ensures p == p.DropLast().Extend(p.End(), p.segments[|p.segments| - 1].cost)
  {
    DropLastContiguous(p);
    assert p.segments == p.DropLast().segments + [p.segments[|p.segments| - 1]];
  }
}
