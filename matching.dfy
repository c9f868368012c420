/**
 * Candidate extraction for one template: the offsets of the score surface that
 * clear the threshold, listed in the row-major order the index search yields,
 * then ranked by descending (score, x, y).
 */
module Matching {
  import opened LootTypes

  /** A score surface: surface[y][x] is the score of the template placed at (x, y). */
  type Surface = seq<seq<int>>

  /** The surface has one score per offset at which a template of size t fits inside frame f. */
  ghost predicate Shaped(s: Surface, f: Dims, t: Template) {
    t.height <= f.height && t.width <= f.width &&
    |s| == f.height - t.height + 1 &&
    forall y :: 0 <= y < |s| ==> |s[y]| == f.width - t.width + 1
  }

  /** Offset (x, y) clears threshold t on surface s. */
  ghost predicate Clears(s: Surface, t: int, c: Candidate) {
    0 <= c.y < |s| && 0 <= c.x < |s[c.y]| && c.score == s[c.y][c.x] && c.score >= t
  }

  /** Strictly increasing row-major order: by y, then by x. */
  ghost predicate RowMajor(cs: seq<Candidate>) {
    forall i, j :: 0 <= i < j < |cs| ==> cs[i].y < cs[j].y || (cs[i].y == cs[j].y && cs[i].x < cs[j].x)
  }

  ghost predicate IncreasingX(cs: seq<Candidate>) {
    forall i, j :: 0 <= i < j < |cs| ==> cs[i].x < cs[j].x
  }

  /** The offsets of one row that clear the threshold, by increasing x. */
  function RowHits(row: seq<int>, y: int, t: int): seq<Candidate> {
    if row == [] then []
    else
      var n := |row| - 1;
      var prev := RowHits(row[..n], y, t);
      if row[n] >= t then prev + [Candidate(row[n], n, y)] else prev
  }

  /** All offsets of the surface that clear threshold t, in row-major order. */
  function Thresholded(s: Surface, t: int): seq<Candidate> {
    if s == [] then [] else Thresholded(s[..|s| - 1], t) + RowHits(s[|s| - 1], |s| - 1, t)
  }

  lemma {:induction false} RowHitsSpec(row: seq<int>, y: int, t: int)
    ensures forall c :: c in RowHits(row, y, t) <==> c.y == y && 0 <= c.x < |row| && c.score == row[c.x] && c.score >= t
    ensures IncreasingX(RowHits(row, y, t))
  {
    if row != [] {
      var n := |row| - 1;
      RowHitsSpec(row[..n], y, t);
      var prev := RowHits(row[..n], y, t);
      var r := RowHits(row, y, t);
      assert r == if row[n] >= t then prev + [Candidate(row[n], n, y)] else prev;
      forall i, j | 0 <= i < j < |r| ensures r[i].x < r[j].x {
        assert r[i] == prev[i] && prev[i] in prev;
        if j == |prev| {
          assert r[j].x == n;
        } else {
          assert r[j] == prev[j];
          assert prev[i].x < prev[j].x;
        }
      }
    }
  }

  /** The thresholded offsets are exactly those that clear the threshold, in row-major order. */
  lemma {:induction false} ThresholdedSpec(s: Surface, t: int)
    ensures forall c :: c in Thresholded(s, t) <==> Clears(s, t, c)
    ensures RowMajor(Thresholded(s, t))
  {
    if s != [] {
      var n := |s| - 1;
      ThresholdedSpec(s[..n], t);
      RowHitsSpec(s[n], n, t);
      var prev := Thresholded(s[..n], t);
      var row := RowHits(s[n], n, t);
      forall i | 0 <= i < |prev| ensures prev[i].y < n {
        assert prev[i] in prev;
        assert Clears(s[..n], t, prev[i]);
      }
      forall i | 0 <= i < |row| ensures row[i].y == n {
        assert row[i] in row;
      }
      var r := prev + row;
      forall i, j | 0 <= i < j < |r| ensures r[i].y < r[j].y || (r[i].y == r[j].y && r[i].x < r[j].x) {
        if j < |prev| {
          assert r[i] == prev[i] && r[j] == prev[j];
          assert RowMajor(prev);
          assert prev[i].y < prev[j].y || (prev[i].y == prev[j].y && prev[i].x < prev[j].x);
        } else if i >= |prev| {
          assert r[i] == row[i - |prev|] && r[j] == row[j - |prev|];
          assert row[i - |prev|].x < row[j - |prev|].x;
        } else {
          assert r[i] == prev[i] && r[j] == row[j - |prev|];
        }
      }
    }
  }

  /** a comes strictly before b in descending lexicographic (score, x, y) order. */
  predicate Above(a: Candidate, b: Candidate) {
    a.score > b.score || (a.score == b.score && (a.x > b.x || (a.x == b.x && a.y > b.y)))
  }

  ghost predicate Descending(cs: seq<Candidate>) {
    forall i, j :: 0 <= i < j < |cs| ==> cs[i] == cs[j] || Above(cs[i], cs[j])
  }

  ghost predicate StrictlyDescending(cs: seq<Candidate>) {
    forall i, j :: 0 <= i < j < |cs| ==> Above(cs[i], cs[j])
  }

  ghost predicate Distinct(cs: seq<Candidate>) {
    forall i, j :: 0 <= i < j < |cs| ==> cs[i] != cs[j]
  }

  /** Inserts c into a descending list, after every element ranked above it. */
  function Insert(c: Candidate, s: seq<Candidate>): seq<Candidate> {
    if s == [] then [c]
    else if Above(s[0], c) then [s[0]] + Insert(c, s[1..])
    else [c] + s
  }

  lemma {:induction false} InsertElements(c: Candidate, s: seq<Candidate>)
    ensures multiset(Insert(c, s)) == multiset(s) + multiset{c}
  {
    if s != [] && Above(s[0], c) {
      InsertElements(c, s[1..]);
      assert s == [s[0]] + s[1..];
    }
  }

  /** A list stays descending when an element that dominates all of it is put in front. */
  lemma ConsDescending(h: Candidate, rest: seq<Candidate>)
    requires Descending(rest)
    requires forall x :: x in rest ==> x == h || Above(h, x)
    ensures Descending([h] + rest)
  {
    var r := [h] + rest;
    forall i, j | 0 <= i < j < |r| ensures r[i] == r[j] || Above(r[i], r[j]) {
      if i == 0 {
        assert r[j] == rest[j - 1];
      } else {
        assert r[i] == rest[i - 1] && r[j] == rest[j - 1];
      }
    }
  }

  lemma {:induction false} InsertDescending(c: Candidate, s: seq<Candidate>)
    requires Descending(s)
    ensures Descending(Insert(c, s))
  {
    if s == [] {
    } else if Above(s[0], c) {
      var tail := s[1..];
      assert Descending(tail) by {
        forall i, j | 0 <= i < j < |tail| ensures tail[i] == tail[j] || Above(tail[i], tail[j]) {
          assert tail[i] == s[i + 1] && tail[j] == s[j + 1];
        }
      }
      InsertDescending(c, tail);
      InsertElements(c, tail);
      var rest := Insert(c, tail);
      forall x | x in rest ensures x == s[0] || Above(s[0], x) {
        assert x in multiset(tail) + multiset{c};
        if x != c {
          assert x in tail;
          var k :| 0 <= k < |tail| && tail[k] == x;
          assert s[k + 1] == x;
        }
      }
      ConsDescending(s[0], rest);
    } else {
      forall x | x in s ensures x == c || Above(c, x) {
        var k :| 0 <= k < |s| && s[k] == x;
        if k > 0 {
          assert s[0] == s[k] || Above(s[0], s[k]);
        }
      }
      ConsDescending(c, s);
    }
  }

  /** The descending sort of the candidate tuples. */
  function SortDesc(s: seq<Candidate>): seq<Candidate> {
    if s == [] then [] else Insert(s[0], SortDesc(s[1..]))
  }

  /** The sort is a permutation of its input and descending. */
  lemma {:induction false} SortDescSpec(s: seq<Candidate>)
    ensures multiset(SortDesc(s)) == multiset(s)
    ensures Descending(SortDesc(s))
  {
    if s != [] {
      SortDescSpec(s[1..]);
      InsertElements(s[0], SortDesc(s[1..]));
      InsertDescending(s[0], SortDesc(s[1..]));
      assert s == [s[0]] + s[1..];
    }
  }

  /** The ranked candidate list of one template at threshold t. */
  function Ranked(s: Surface, t: int): seq<Candidate> {
    SortDesc(Thresholded(s, t))
  }

  lemma RowMajorDistinct(cs: seq<Candidate>)
    requires RowMajor(cs)
    ensures Distinct(cs)
  {
  }

  /** A descending list without repeated tuples is strictly descending. */
  lemma {:induction false} DescendingDistinct(cs: seq<Candidate>, ds: seq<Candidate>)
    requires Descending(cs) && Distinct(ds) && multiset(cs) == multiset(ds)
    ensures StrictlyDescending(cs)
  {
    forall i, j | 0 <= i < j < |cs| ensures Above(cs[i], cs[j]) {
      if cs[i] == cs[j] {
        assert multiset(cs)[cs[i]] >= 2 by {
          var rest := cs[..i] + cs[i+1..];
          assert cs == cs[..i] + [cs[i]] + cs[i+1..];
          assert cs[j] in rest by { assert rest[j - 1] == cs[j]; }
          assert multiset(cs) == multiset(rest) + multiset{cs[i]};
        }
        DistinctCount(ds, cs[i]);
        assert false;
      }
    }
  }

  lemma {:induction false} DistinctCount(ds: seq<Candidate>, x: Candidate)
    requires Distinct(ds)
    ensures multiset(ds)[x] <= 1
  {
    if ds != [] {
      assert ds == [ds[0]] + ds[1..];
      assert Distinct(ds[1..]);
      DistinctCount(ds[1..], x);
      if ds[0] == x {
        assert x !in ds[1..];
      }
    }
  }

  /**
   * The ranked list holds exactly the offsets that clear the threshold, each
   * once, in strictly descending (score, x, y) order.
   */
  lemma RankedSpec(s: Surface, t: int)
    ensures forall c :: c in Ranked(s, t) <==> Clears(s, t, c)
    ensures |Ranked(s, t)| == |Thresholded(s, t)|
    ensures StrictlyDescending(Ranked(s, t))
  {
    var th := Thresholded(s, t);
    var r := Ranked(s, t);
    ThresholdedSpec(s, t);
    SortDescSpec(th);
    assert forall c :: c in r <==> c in multiset(th);
    assert |r| == |multiset(r)| == |multiset(th)| == |th|;
    RowMajorDistinct(th);
    DescendingDistinct(r, th);
  }

  /**
   * If the template is larger than the frame in either dimension the match step
   * is skipped and yields nothing; otherwise, on a surface of the shape the
   * correlation produces, the candidates are exactly the in-frame offsets whose
   * score clears the threshold.
   */
  function Matches(f: Dims, tpl: Template, s: Surface, t: int): seq<Candidate> {
    if f.height < tpl.height || f.width < tpl.width then [] else Ranked(s, t)
  }

  lemma MatchesSpec(f: Dims, tpl: Template, s: Surface, t: int)
    ensures f.height < tpl.height || f.width < tpl.width ==> Matches(f, tpl, s, t) == []
    ensures Shaped(s, f, tpl) ==> forall c :: c in Matches(f, tpl, s, t) <==>
              0 <= c.x <= f.width - tpl.width && 0 <= c.y <= f.height - tpl.height &&
              c.score == s[c.y][c.x] && c.score >= t
    ensures StrictlyDescending(Matches(f, tpl, s, t))
  {
    RankedSpec(s, t);
  }

  /** Two strictly descending lists with the same elements are equal. */
  lemma {:induction false} StrictlyDescendingUnique(a: seq<Candidate>, b: seq<Candidate>)
    requires StrictlyDescending(a) && StrictlyDescending(b)
    requires forall c :: c in a <==> c in b
    ensures a == b
  {
    if a != [] { assert a[0] in a; }
    if b != [] { assert b[0] in b; }
    if a != [] && b != [] {
      var k :| 0 <= k < |b| && b[k] == a[0];
      var m :| 0 <= m < |a| && a[m] == b[0];
      assert Above(b[0], b[k]) || k == 0;
      assert Above(a[0], a[m]) || m == 0;
      assert a[0] == b[0];
      forall c ensures c in a[1..] <==> c in b[1..] {
        if c in a[1..] {
          var i :| 0 <= i < |a| - 1 && a[1..][i] == c;
          assert Above(a[0], a[i + 1]);
          assert c in a;
          var j :| 0 <= j < |b| && b[j] == c;
          assert j != 0;
          assert b[1..][j - 1] == c;
        }
        if c in b[1..] {
          var i :| 0 <= i < |b| - 1 && b[1..][i] == c;
          assert Above(b[0], b[i + 1]);
          assert c in b;
          var j :| 0 <= j < |a| && a[j] == c;
          assert j != 0;
          assert a[1..][j - 1] == c;
        }
      }
      StrictlyDescendingUnique(a[1..], b[1..]);
      assert a == [a[0]] + a[1..];
      assert b == [b[0]] + b[1..];
    }
  }

  /** The number of leading elements whose score is at least t. */
  function LeadingAtLeast(cs: seq<Candidate>, t: int): (k: nat)
    ensures k <= |cs|
    ensures forall i :: 0 <= i < k ==> cs[i].score >= t
    ensures k < |cs| ==> cs[k].score < t
  {
    if cs == [] || cs[0].score < t then 0 else 1 + LeadingAtLeast(cs[1..], t)
  }

  /**
   * Raising the threshold keeps a prefix of the ranked list: the candidates
   * that clear the higher threshold are exactly the first ones of the lower
   * threshold's ranking, in the same order.
   */
  lemma RankedThresholdPrefix(s: Surface, t1: int, t2: int)
    requires t1 <= t2
    ensures Ranked(s, t2) <= Ranked(s, t1)
  {
    var r1 := Ranked(s, t1);
    var r2 := Ranked(s, t2);
    RankedSpec(s, t1);
    RankedSpec(s, t2);
    var k := LeadingAtLeast(r1, t2);
    forall i | k <= i < |r1| ensures r1[i].score < t2 {
      if i > k { assert Above(r1[k], r1[i]); }
    }
    var p := r1[..k];
    forall c ensures c in p <==> c in r2 {
      if c in r1 {
        var i :| 0 <= i < |r1| && r1[i] == c;
        assert c in p <==> i < k;
      }
    }
    StrictlyDescendingUnique(p, r2);
  }

  lemma MatchesThresholdPrefix(f: Dims, tpl: Template, s: Surface, t1: int, t2: int)
    requires t1 <= t2
    ensures Matches(f, tpl, s, t2) <= Matches(f, tpl, s, t1)
  {
    RankedThresholdPrefix(s, t1, t2);
  }
}
