/**
 * Greedy distance-based suppression: walk the ranked candidates and accept each
 * one that is at least the minimum distance from every point accepted so far.
 */
module Suppression {
  import opened LootTypes

  /**
   * The Euclidean distance between p and q is below d. Coordinates are
   * integers and d is not negative, so hypot(dx, dy) < d is dx*dx + dy*dy < d*d.
   */
  predicate Near(p: Point, q: Point, d: nat) {
    (p.x - q.x) * (p.x - q.x) + (p.y - q.y) * (p.y - q.y) < d * d
  }

  /** p is at distance at least d from every point of existing. */
  predicate FarFromAll(existing: seq<Point>, p: Point, d: nat) {
    forall i :: 0 <= i < |existing| ==> !Near(existing[i], p, d)
  }

  /** The distance check against the points accepted so far, stopping at the first one too close. */
  method IsFarEnough(existing: seq<Point>, p: Point, d: nat) returns (far: bool)
    ensures far <==> FarFromAll(existing, p, d)
    ensures existing == [] ==> far
  {
    for i := 0 to |existing|
      invariant FarFromAll(existing[..i], p, d)
    {
      if Near(existing[i], p, d) {
        return false;
      }
    }
    return true;
  }

  /** The points the accept loop holds after visiting every candidate of ms in order. */
  function Greedy(ms: seq<Candidate>, d: nat): (acc: seq<Point>)
    ensures |acc| <= |ms|
  {
    if ms == [] then []
    else
      var prev := Greedy(ms[..|ms| - 1], d);
      var p := Pos(ms[|ms| - 1]);
      if FarFromAll(prev, p, d) then prev + [p] else prev
  }

  /** No two points of the list are closer than d. */
  ghost predicate Separated(ps: seq<Point>, d: nat) {
    forall i, j :: 0 <= i < j < |ps| ==> !Near(ps[i], ps[j], d) && !Near(ps[j], ps[i], d)
  }

  /** Every pair of accepted points is at distance at least d. */
  lemma {:induction false} GreedySeparated(ms: seq<Candidate>, d: nat)
    ensures Separated(Greedy(ms, d), d)
  {
    if ms != [] {
      var prev := Greedy(ms[..|ms| - 1], d);
      GreedySeparated(ms[..|ms| - 1], d);
      var p := Pos(ms[|ms| - 1]);
      if FarFromAll(prev, p, d) {
        var acc := prev + [p];
        forall i, j | 0 <= i < j < |acc| ensures !Near(acc[i], acc[j], d) && !Near(acc[j], acc[i], d) {
          if j == |prev| {
            assert !Near(prev[i], p, d);
          }
        }
      }
    }
  }

  /** Visiting one more candidate grows the accepted list by at most that candidate's point. */
  lemma GreedyStep(ms: seq<Candidate>, d: nat, k: nat)
    requires k < |ms|
    ensures var before := Greedy(ms[..k], d);
            Greedy(ms[..k + 1], d) == if FarFromAll(before, Pos(ms[k]), d) then before + [Pos(ms[k])] else before
  {
    assert ms[..k + 1][..k] == ms[..k];
  }

  /** Running the accept loop on a prefix of the candidates yields a prefix of the accepted list. */
  lemma {:induction false} GreedyPrefix(ms: seq<Candidate>, d: nat, k: nat)
    requires k <= |ms|
    ensures Greedy(ms[..k], d) <= Greedy(ms, d)
  {
    if k == |ms| {
      assert ms[..k] == ms;
    } else {
      var n := |ms| - 1;
      assert ms[..n][..k] == ms[..k];
      GreedyPrefix(ms[..n], d, k);
    }
  }

  /** The top-ranked candidate is always accepted, and first. */
  lemma GreedyAcceptsFirst(ms: seq<Candidate>, d: nat)
    requires ms != []
    ensures Greedy(ms, d) != [] && Greedy(ms, d)[0] == Pos(ms[0])
  {
    GreedyPrefix(ms, d, 1);
    assert ms[..1][..0] == [];
  }

  /**
   * Every candidate is either accepted, its point appended right after the
   * points accepted before it, or rejected because it lies within d of one of
   * those points: the selection is greedy and maximal.
   */
  lemma GreedyDecision(ms: seq<Candidate>, d: nat, k: nat)
    requires k < |ms|
    ensures var before := Greedy(ms[..k], d);
            before <= Greedy(ms, d) &&
            (FarFromAll(before, Pos(ms[k]), d) ==> before + [Pos(ms[k])] <= Greedy(ms, d)) &&
            (!FarFromAll(before, Pos(ms[k]), d) ==>
               Greedy(ms[..k + 1], d) == before &&
               exists j :: 0 <= j < |before| && Near(before[j], Pos(ms[k]), d))
  {
    GreedyStep(ms, d, k);
    GreedyPrefix(ms, d, k);
    GreedyPrefix(ms, d, k + 1);
  }

  /** The points of a candidate list, in order. */
  function Positions(ms: seq<Candidate>): (ps: seq<Point>)
    ensures |ps| == |ms| && forall i :: 0 <= i < |ms| ==> ps[i] == Pos(ms[i])
  {
    if ms == [] then [] else Positions(ms[..|ms| - 1]) + [Pos(ms[|ms| - 1])]
  }

  /** a is obtained from b by deleting elements. */
  ghost predicate Subsequence(a: seq<Point>, b: seq<Point>)
    decreases |b|
  {
    if a == [] then true
    else if b == [] then false
    else (a[|a| - 1] == b[|b| - 1] && Subsequence(a[..|a| - 1], b[..|b| - 1]))
         || Subsequence(a, b[..|b| - 1])
  }

  /** The accepted points are a subsequence of the ranked candidates' points. */
  lemma {:induction false} GreedySubsequence(ms: seq<Candidate>, d: nat)
    ensures Subsequence(Greedy(ms, d), Positions(ms))
  {
    if ms != [] {
      var n := |ms| - 1;
      GreedySubsequence(ms[..n], d);
      var prev := Greedy(ms[..n], d);
      var ps := Positions(ms);
      assert ps[..n] == Positions(ms[..n]);
      if FarFromAll(prev, Pos(ms[n]), d) {
        var acc := prev + [Pos(ms[n])];
        assert acc[..|acc| - 1] == prev;
      } else if prev != [] {
        assert Subsequence(prev, ps[..n]);
      }
    }
  }

  lemma {:induction false} SubsequenceMembers(a: seq<Point>, b: seq<Point>)
    requires Subsequence(a, b)
    ensures forall p :: p in a ==> p in b
    decreases |b|
  {
    if a != [] {
      var n := |b| - 1;
      if a[|a| - 1] == b[n] && Subsequence(a[..|a| - 1], b[..n]) {
        SubsequenceMembers(a[..|a| - 1], b[..n]);
        assert a == a[..|a| - 1] + [a[|a| - 1]];
        assert b == b[..n] + [b[n]];
      } else {
        SubsequenceMembers(a, b[..n]);
        assert b == b[..n] + [b[n]];
      }
    }
  }
}
