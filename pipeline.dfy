/**
 * The detection request: preprocess the frame, match every catalog template,
 * suppress duplicate matches per template, count acceptances per file name and
 * build the loot report.
 */
module Pipeline {
  import opened LootTypes
  import opened Preprocess
  import opened Matching
  import opened Suppression
  import opened Counting
  import opened Enrichment

  /** What a successful request returns: the analysis frame and the loot report. */
  datatype Outcome = Outcome(frame: Dims, report: map<string, LootEntry>)

  /** The points accepted for one template on the analysis frame at threshold t. */
  function Accepted(frame: Dims, tpl: Template, s: Surface, t: int): seq<Point> {
    Greedy(Matches(frame, tpl, s, t), NMS_DISTANCE)
  }

  /** The accepted points of every template of the catalog, in catalog order. */
  function AcceptedAll(frame: Dims, catalog: seq<Template>, surfaces: seq<Surface>, t: int): seq<seq<Point>>
    requires |catalog| == |surfaces|
  {
    seq(|catalog|, i requires 0 <= i < |catalog| => Accepted(frame, catalog[i], surfaces[i], t))
  }

  /** The detection counter after the first k templates, acc[i] being the points accepted for catalog[i]. */
  function CountAfter(catalog: seq<Template>, acc: seq<seq<Point>>, k: nat): Counter
    requires k <= |catalog| == |acc|
  {
    if k == 0 then Empty()
    else Bump(CountAfter(catalog, acc, k - 1), catalog[k - 1].filename, |acc[k - 1]|)
  }

  /** The number of acceptances over the first k templates whose file name is f. */
  function TotalFor(catalog: seq<Template>, acc: seq<seq<Point>>, f: string, k: nat): nat
    requires k <= |catalog| == |acc|
  {
    if k == 0 then 0
    else TotalFor(catalog, acc, f, k - 1) + (if catalog[k - 1].filename == f then |acc[k - 1]| else 0)
  }

  /**
   * The index of the first of the first k templates that is named f and has at
   * least one acceptance, or k when there is none.
   */
  function FirstHit(catalog: seq<Template>, acc: seq<seq<Point>>, f: string, k: nat): (r: nat)
    requires k <= |catalog| == |acc|
    ensures r <= k
    ensures r < k ==> catalog[r].filename == f && |acc[r]| > 0
    ensures forall j :: 0 <= j < r ==> !(catalog[j].filename == f && |acc[j]| > 0)
  {
    if k == 0 then 0
    else
      var p := FirstHit(catalog, acc, f, k - 1);
      if p < k - 1 then p
      else if catalog[k - 1].filename == f && |acc[k - 1]| > 0 then k - 1
      else k
  }

  /** The result of one request, stated on values. */
  function Detect(decoded: Option<Dims>, catalog: seq<Template>, surfaces: seq<Surface>,
                  table: map<string, ItemInfo>): Result<Outcome>
    requires |catalog| == |surfaces|
    requires decoded.Some? ==> decoded.value.width > 0
  {
    match Normalize(decoded)
    case Err(e) => Err(e)
    case Ok(frame) =>
      var counter := CountAfter(catalog, AcceptedAll(frame, catalog, surfaces, THRESHOLD), |catalog|);
      Ok(Outcome(frame, Formatted(Items(counter), table)))
  }

  /**
   * One request. `decoded` is the decoded frame's shape (None when decoding
   * failed); `surfaces[i]` is the score surface of `catalog[i]` on the frame.
   */
  method ProcessImage(decoded: Option<Dims>, catalog: seq<Template>, surfaces: seq<Surface>,
                      table: map<string, ItemInfo>) returns (r: Result<Outcome>)
    requires |catalog| == |surfaces|
    requires decoded.Some? ==> decoded.value.width > 0
    ensures r == Detect(decoded, catalog, surfaces, table)
  {
    var normalized := Normalize(decoded);
    if normalized.Err? {
      return Err(normalized.error);
    }
    var frame := normalized.value;
    ghost var acc := AcceptedAll(frame, catalog, surfaces, THRESHOLD);
    var counter := Empty();
    for i := 0 to |catalog|
      invariant counter == CountAfter(catalog, acc, i)
    {
      var tpl := catalog[i];
      if frame.height < tpl.height || frame.width < tpl.width {
        assert acc[i] == [];
        continue;
      }
      var matches := Ranked(surfaces[i], THRESHOLD);
      assert acc[i] == Greedy(matches, NMS_DISTANCE);
      var accepted;
      accepted, counter := AcceptMatches(matches, tpl.filename, counter);
    }
    var report := FormatLootData(Items(counter), table);
    return Ok(Outcome(frame, report));
  }

  /**
   * The accept loop of one template: walk its ranked matches, keep each one far
   * enough from those kept so far, and count every kept one under the file name.
   */
  method AcceptMatches(matches: seq<Candidate>, filename: string, counter: Counter)
    returns (accepted: seq<Point>, counted: Counter)
    ensures accepted == Greedy(matches, NMS_DISTANCE)
    ensures counted == Bump(counter, filename, |accepted|)
  {
    accepted, counted := [], counter;
    for j := 0 to |matches|
      invariant accepted == Greedy(matches[..j], NMS_DISTANCE)
      invariant counted == Bump(counter, filename, |accepted|)
    {
      var p := Pos(matches[j]);
      var far := IsFarEnough(accepted, p, NMS_DISTANCE);
      if far {
        accepted := accepted + [p];
        counted := Inc(counted, filename);
      }
      GreedyStep(matches, NMS_DISTANCE, j);
    }
    assert matches[..|matches|] == matches;
  }

  /** The counter holds each file name's total, has exactly the file names with a positive total as keys, and is well formed. */
  ghost predicate Tallies(c: Counter, catalog: seq<Template>, acc: seq<seq<Point>>, k: nat)
    requires k <= |catalog| == |acc|
  {
    Valid(c) &&
    forall f :: Get(c, f) == TotalFor(catalog, acc, f, k) && (f in c.count <==> TotalFor(catalog, acc, f, k) > 0)
  }

  /**
   * counter[f] is the total number of acceptances of every template named f,
   * whatever its category; f is a key exactly when that total is positive, and
   * the keys are listed once each.
   */
  lemma {:induction false} CountsExact(catalog: seq<Template>, acc: seq<seq<Point>>, k: nat)
    requires k <= |catalog| == |acc|
    ensures Tallies(CountAfter(catalog, acc, k), catalog, acc, k)
  {
    if k > 0 {
      CountsExact(catalog, acc, k - 1);
      BumpSpec(CountAfter(catalog, acc, k - 1), catalog[k - 1].filename, |acc[k - 1]|);
    }
  }

  /**
   * The accepted points of one template are pairwise at least NMS_DISTANCE
   * apart, and, on a surface of the shape the correlation produces, each is an
   * in-frame offset whose score clears the threshold.
   */
  lemma AcceptedSound(frame: Dims, tpl: Template, s: Surface, t: int)
    ensures Separated(Accepted(frame, tpl, s, t), NMS_DISTANCE)
    ensures |Accepted(frame, tpl, s, t)| <= |Matches(frame, tpl, s, t)|
    ensures Shaped(s, frame, tpl) ==> forall p :: p in Accepted(frame, tpl, s, t) ==>
              0 <= p.x <= frame.width - tpl.width && 0 <= p.y <= frame.height - tpl.height &&
              s[p.y][p.x] >= t
  {
    var ms := Matches(frame, tpl, s, t);
    MatchesSpec(frame, tpl, s, t);
    GreedySeparated(ms, NMS_DISTANCE);
    GreedySubsequence(ms, NMS_DISTANCE);
    SubsequenceMembers(Greedy(ms, NMS_DISTANCE), Positions(ms));
    if Shaped(s, frame, tpl) {
      forall p | p in Accepted(frame, tpl, s, t)
        ensures 0 <= p.x <= frame.width - tpl.width && 0 <= p.y <= frame.height - tpl.height && s[p.y][p.x] >= t
      {
        var i :| 0 <= i < |ms| && Positions(ms)[i] == p;
        assert ms[i] in ms;
      }
    }
  }

  /**
   * Raising the threshold keeps a prefix of each template's accepted points,
   * so no count increases.
   */
  lemma AcceptedThresholdMonotone(frame: Dims, tpl: Template, s: Surface, t1: int, t2: int)
    requires t1 <= t2
    ensures Accepted(frame, tpl, s, t2) <= Accepted(frame, tpl, s, t1)
  {
    var m1 := Matches(frame, tpl, s, t1);
    var m2 := Matches(frame, tpl, s, t2);
    MatchesThresholdPrefix(frame, tpl, s, t1, t2);
    assert m1[..|m2|] == m2;
    GreedyPrefix(m1, NMS_DISTANCE, |m2|);
  }

  /** Totals grow with the per-template acceptance counts. */
  lemma {:induction false} TotalMonotone(catalog: seq<Template>, acc1: seq<seq<Point>>, acc2: seq<seq<Point>>, f: string, k: nat)
    requires k <= |catalog| == |acc1| == |acc2|
    requires forall i :: 0 <= i < k ==> |acc2[i]| <= |acc1[i]|
    ensures TotalFor(catalog, acc2, f, k) <= TotalFor(catalog, acc1, f, k)
  {
    if k > 0 {
      TotalMonotone(catalog, acc1, acc2, f, k - 1);
    }
  }

  /**
   * On the same score surfaces, raising the threshold never increases the
   * count of any file name.
   */
  lemma ThresholdMonotone(frame: Dims, catalog: seq<Template>, surfaces: seq<Surface>, t1: int, t2: int, f: string)
    requires |catalog| == |surfaces|
    requires t1 <= t2
    ensures TotalFor(catalog, AcceptedAll(frame, catalog, surfaces, t2), f, |catalog|) <=
            TotalFor(catalog, AcceptedAll(frame, catalog, surfaces, t1), f, |catalog|)
  {
    var acc1 := AcceptedAll(frame, catalog, surfaces, t1);
    var acc2 := AcceptedAll(frame, catalog, surfaces, t2);
    forall i | 0 <= i < |catalog| ensures |acc2[i]| <= |acc1[i]| {
      AcceptedThresholdMonotone(frame, catalog[i], surfaces[i], t1, t2);
    }
    TotalMonotone(catalog, acc1, acc2, f, |catalog|);
  }

  /** The counter stays well formed: its keys are listed once each and every count is positive. */
  lemma {:induction false} CountValid(catalog: seq<Template>, acc: seq<seq<Point>>, k: nat)
    requires k <= |catalog| == |acc|
    ensures Valid(CountAfter(catalog, acc, k))
  {
    if k > 0 {
      CountValid(catalog, acc, k - 1);
      BumpSpec(CountAfter(catalog, acc, k - 1), catalog[k - 1].filename, |acc[k - 1]|);
    }
  }

  /** A file name's first hit moves only when it had none so far. */
  lemma FirstHitStep(catalog: seq<Template>, acc: seq<seq<Point>>, g: string, k: nat)
    requires 0 < k <= |catalog| == |acc|
    ensures FirstHit(catalog, acc, g, k - 1) < k - 1 ==> FirstHit(catalog, acc, g, k) == FirstHit(catalog, acc, g, k - 1)
    ensures FirstHit(catalog, acc, g, k - 1) == k - 1 ==>
              FirstHit(catalog, acc, g, k) == if catalog[k - 1].filename == g && |acc[k - 1]| > 0 then k - 1 else k
    ensures FirstHit(catalog, acc, g, k) < k <==>
              FirstHit(catalog, acc, g, k - 1) < k - 1 || (catalog[k - 1].filename == g && |acc[k - 1]| > 0)
  {
  }

  /** A file name is a key of the counter exactly when one of its templates has an acceptance. */
  lemma {:induction false} KeyHit(catalog: seq<Template>, acc: seq<seq<Point>>, g: string, k: nat)
    requires k <= |catalog| == |acc|
    ensures g in CountAfter(catalog, acc, k).count <==> FirstHit(catalog, acc, g, k) < k
  {
    if k > 0 {
      KeyHit(catalog, acc, g, k - 1);
      BumpSpec(CountAfter(catalog, acc, k - 1), catalog[k - 1].filename, |acc[k - 1]|);
      FirstHitStep(catalog, acc, g, k);
    }
  }

  /** The file names of o appear in strictly increasing order of their first hit among the first k templates. */
  ghost predicate ListedByFirstHit(catalog: seq<Template>, acc: seq<seq<Point>>, o: seq<string>, k: nat)
    requires k <= |catalog| == |acc|
  {
    forall a, b :: 0 <= a < b < |o| ==> FirstHit(catalog, acc, o[a], k) < FirstHit(catalog, acc, o[b], k)
  }

  /**
   * The counter lists its keys in the order of their first template with an
   * acceptance.
   */
  lemma {:induction false} KeyOrder(catalog: seq<Template>, acc: seq<seq<Point>>, k: nat)
    requires k <= |catalog| == |acc|
    ensures ListedByFirstHit(catalog, acc, CountAfter(catalog, acc, k).order, k)
  {
    if k > 0 {
      var c := CountAfter(catalog, acc, k - 1);
      var f, n := catalog[k - 1].filename, |acc[k - 1]|;
      var o := Bump(c, f, n).order;
      var appended := f !in c.count && n > 0;
      assert o == if appended then c.order + [f] else c.order by {
        BumpSpec(c, f, n);
      }
      KeyOrder(catalog, acc, k - 1);
      assert ListedByFirstHit(catalog, acc, o, k) by {
        forall a, b | 0 <= a < b < |o|
          ensures FirstHit(catalog, acc, o[a], k) < FirstHit(catalog, acc, o[b], k)
        {
          var g := c.order[a];
          assert o[a] == g;
          assert FirstHit(catalog, acc, g, k) == FirstHit(catalog, acc, g, k - 1) < k - 1 by {
            CountValid(catalog, acc, k - 1);
            assert g in c.count;
            KeyHit(catalog, acc, g, k - 1);
            FirstHitStep(catalog, acc, g, k);
          }
          if b < |c.order| {
            var h := c.order[b];
            assert o[b] == h;
            assert FirstHit(catalog, acc, h, k) == FirstHit(catalog, acc, h, k - 1) by {
              CountValid(catalog, acc, k - 1);
              assert h in c.count;
              KeyHit(catalog, acc, h, k - 1);
              FirstHitStep(catalog, acc, h, k);
            }
            assert ListedByFirstHit(catalog, acc, c.order, k - 1);
            assert FirstHit(catalog, acc, g, k - 1) < FirstHit(catalog, acc, h, k - 1);
          } else {
            assert appended && o[b] == f;
            assert FirstHit(catalog, acc, f, k) == k - 1 by {
              KeyHit(catalog, acc, f, k - 1);
              FirstHitStep(catalog, acc, f, k);
            }
          }
        }
      }
    }
  }

  /**
   * f has an acceptance, and its first acceptance comes after the first
   * acceptance of every other file name with the same report key.
   */
  ghost predicate WinsKey(catalog: seq<Template>, acc: seq<seq<Point>>, table: map<string, ItemInfo>, f: string)
    requires |catalog| == |acc|
  {
    FirstHit(catalog, acc, f, |catalog|) < |catalog| &&
    forall g :: g != f && KeyOf(g, table) == KeyOf(f, table) && FirstHit(catalog, acc, g, |catalog|) < |catalog| ==>
                FirstHit(catalog, acc, g, |catalog|) < FirstHit(catalog, acc, f, |catalog|)
  }

  /**
   * When f's first acceptance comes after that of every other detected file
   * name with the same report key, no key listed after f shares that report key.
   */
  lemma LaterKeysDiffer(catalog: seq<Template>, acc: seq<seq<Point>>, table: map<string, ItemInfo>, f: string, i: nat)
    requires |catalog| == |acc|
    requires WinsKey(catalog, acc, table, f)
    requires i < |CountAfter(catalog, acc, |catalog|).order| && CountAfter(catalog, acc, |catalog|).order[i] == f
    ensures var o := CountAfter(catalog, acc, |catalog|).order;
            forall j :: i < j < |o| ==> KeyOf(o[j], table) != KeyOf(f, table)
  {
    var n := |catalog|;
    var o := CountAfter(catalog, acc, n).order;
    forall j | i < j < |o| ensures KeyOf(o[j], table) != KeyOf(f, table) {
      var g := o[j];
      assert g != f && FirstHit(catalog, acc, g, n) < n by {
        CountValid(catalog, acc, n);
        KeyHit(catalog, acc, g, n);
      }
      assert FirstHit(catalog, acc, f, n) < FirstHit(catalog, acc, g, n) by {
        KeyOrder(catalog, acc, n);
        assert ListedByFirstHit(catalog, acc, o, n);
      }
    }
  }

  /**
   * When several detected file names share a report key, the entry under that
   * key is the one of the file name whose first acceptance comes last in
   * catalog order, with that name's total as quantity.
   */
  lemma ReportWinner(catalog: seq<Template>, acc: seq<seq<Point>>, table: map<string, ItemInfo>, f: string)
    requires |catalog| == |acc|
    requires WinsKey(catalog, acc, table, f)
    ensures KeyOf(f, table) in Formatted(Items(CountAfter(catalog, acc, |catalog|)), table)
    ensures Formatted(Items(CountAfter(catalog, acc, |catalog|)), table)[KeyOf(f, table)] ==
            EntryOf(f, TotalFor(catalog, acc, f, |catalog|), table)
  {
    var n := |catalog|;
    var c := CountAfter(catalog, acc, n);
    var items := Items(c);
    var report := Formatted(items, table);
    assert KeyOf(f, table) in report && report[KeyOf(f, table)] == EntryOf(f, Get(c, f), table) by {
      var i :| 0 <= i < |c.order| && c.order[i] == f by {
        CountValid(catalog, acc, n);
        KeyHit(catalog, acc, f, n);
      }
      LaterKeysDiffer(catalog, acc, table, f, i);
      assert items[i] == (f, Get(c, f));
      forall j | i < j < |items| ensures KeyOf(items[j].0, table) != KeyOf(items[i].0, table) {
        assert items[j].0 == c.order[j];
      }
      FormattedLast(items, table, i);
    }
    assert Get(c, f) == TotalFor(catalog, acc, f, n) by {
      CountsExact(catalog, acc, n);
    }
  }

  /** Each report entry is the enrichment of a detected file name, its quantity that name's total. */
  lemma ReportEntry(catalog: seq<Template>, acc: seq<seq<Point>>, table: map<string, ItemInfo>, k: string)
    requires |catalog| == |acc|
    requires k in Formatted(Items(CountAfter(catalog, acc, |catalog|)), table)
    ensures exists f :: TotalFor(catalog, acc, f, |catalog|) > 0 && KeyOf(f, table) == k &&
                        Formatted(Items(CountAfter(catalog, acc, |catalog|)), table)[k] ==
                          EntryOf(f, TotalFor(catalog, acc, f, |catalog|), table)
  {
    var c := CountAfter(catalog, acc, |catalog|);
    var items := Items(c);
    CountsExact(catalog, acc, |catalog|);
    FormattedEntry(items, table, k);
    var i :| 0 <= i < |items| && KeyOf(items[i].0, table) == k &&
             Formatted(items, table)[k] == EntryOf(items[i].0, items[i].1, table);
    var f := c.order[i];
    assert items[i] == (f, Get(c, f));
    assert f in c.count;
    assert Get(c, f) == TotalFor(catalog, acc, f, |catalog|);
  }

  /** Every file name with at least one acceptance has its key in the report. */
  lemma ReportCovers(catalog: seq<Template>, acc: seq<seq<Point>>, table: map<string, ItemInfo>, f: string)
    requires |catalog| == |acc|
    requires TotalFor(catalog, acc, f, |catalog|) > 0
    ensures KeyOf(f, table) in Formatted(Items(CountAfter(catalog, acc, |catalog|)), table)
  {
    var c := CountAfter(catalog, acc, |catalog|);
    var items := Items(c);
    CountsExact(catalog, acc, |catalog|);
    ItemsSpec(c);
    assert f in c.count;
    FormattedKeys(items, table);
  }

  /**
   * Two equal-score copies 5 pixels apart: the sort puts the larger y first, so
   * the copy at (10, 15) is kept and the one at (10, 10) is suppressed.
   */
  lemma CloseCopies()
    ensures Greedy(SortDesc([Candidate(1000, 10, 10), Candidate(1000, 10, 15)]), NMS_DISTANCE) == [Point(10, 15)]
  {
    var sorted := [Candidate(1000, 10, 15), Candidate(1000, 10, 10)];
    assert SortDesc([Candidate(1000, 10, 10), Candidate(1000, 10, 15)]) == sorted;
    assert sorted[..1] == [Candidate(1000, 10, 15)];
    assert sorted[..1][..0] == [];
    assert Greedy(sorted[..1], NMS_DISTANCE) == [Point(10, 15)];
    var kept := [Point(10, 15)];
    assert Near(kept[0], Point(10, 10), NMS_DISTANCE);
    assert !FarFromAll(kept, Point(10, 10), NMS_DISTANCE);
  }

  /** Two copies 30 pixels apart are both kept. */
  lemma DistantCopies()
    ensures Greedy(SortDesc([Candidate(1000, 10, 10), Candidate(1000, 10, 40)]), NMS_DISTANCE) == [Point(10, 40), Point(10, 10)]
  {
    var sorted := [Candidate(1000, 10, 40), Candidate(1000, 10, 10)];
    assert SortDesc([Candidate(1000, 10, 10), Candidate(1000, 10, 40)]) == sorted;
    assert sorted[..1] == [Candidate(1000, 10, 40)];
    assert sorted[..1][..0] == [];
    assert Greedy(sorted[..1], NMS_DISTANCE) == [Point(10, 40)];
    assert !Near(Point(10, 40), Point(10, 10), NMS_DISTANCE);
  }
}
