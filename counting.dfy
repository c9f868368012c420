/**
 * The detection counter: a dictionary from template file name to the number of
 * acceptances, whose missing keys read as 0 and whose keys keep the order of
 * their first increment (the order in which the report is later built).
 */
module Counting {

  datatype Counter = Counter(order: seq<string>, count: map<string, nat>)

  /** The keys are listed once each, in `order`, and every stored count is positive. */
  ghost predicate Valid(c: Counter) {
    (forall i, j :: 0 <= i < j < |c.order| ==> c.order[i] != c.order[j]) &&
    (forall f :: f in c.count <==> f in c.order) &&
    (forall f :: f in c.count ==> c.count[f] > 0)
  }

  function Empty(): (c: Counter)
    ensures Valid(c) && c.count == map[]
  {
    Counter([], map[])
  }

  /** The value the counter reads for f: missing keys read as 0. */
  function Get(c: Counter, f: string): nat {
    if f in c.count then c.count[f] else 0
  }

  /** counter[f] += 1: a new key is created with 1 and goes to the end of the key order. */
  function Inc(c: Counter, f: string): Counter {
    if f in c.count then Counter(c.order, c.count[f := c.count[f] + 1])
    else Counter(c.order + [f], c.count[f := 1])
  }

  /** An increment adds one to f, leaves every other key alone and keeps the counter well formed. */
  lemma IncSpec(c: Counter, f: string)
    ensures Get(Inc(c, f), f) == Get(c, f) + 1 && f in Inc(c, f).count
    ensures forall g :: g != f ==> Get(Inc(c, f), g) == Get(c, g) && (g in Inc(c, f).count <==> g in c.count)
    ensures f in c.count ==> Inc(c, f).order == c.order
    ensures f !in c.count ==> Inc(c, f).order == c.order + [f]
    ensures Valid(c) ==> Valid(Inc(c, f))
  {
  }

  /** n increments of key f. */
  function Bump(c: Counter, f: string, n: nat): Counter {
    if n == 0 then c else Inc(Bump(c, f, n - 1), f)
  }

  /**
   * n increments add n to f and nothing to any other key; f becomes a key once
   * n is positive, and only then, if it is new, joins the end of the key order.
   */
  lemma {:induction false} BumpSpec(c: Counter, f: string, n: nat)
    ensures Get(Bump(c, f, n), f) == Get(c, f) + n
    ensures forall g :: g != f ==> Get(Bump(c, f, n), g) == Get(c, g)
    ensures forall g :: g in Bump(c, f, n).count <==> g in c.count || (g == f && n > 0)
    ensures Bump(c, f, n).order == if f in c.count || n == 0 then c.order else c.order + [f]
    ensures Valid(c) ==> Valid(Bump(c, f, n))
  {
    if n > 0 {
      BumpSpec(c, f, n - 1);
      IncSpec(Bump(c, f, n - 1), f);
    }
  }

  /** The counter's items, as the report builder iterates them: in key order. */
  function Items(c: Counter): seq<(string, int)> {
    seq(|c.order|, i requires 0 <= i < |c.order| => (c.order[i], Get(c, c.order[i])))
  }

  /**
   * Iterating a well-formed counter visits its keys in insertion order, every
   * key exactly once, each with its positive count, and nothing else.
   */
  lemma ItemsSpec(c: Counter)
    requires Valid(c)
    ensures var items := Items(c);
            |items| == |c.order| &&
            (forall i :: 0 <= i < |items| ==> items[i].0 == c.order[i]) &&
            (forall i, j :: 0 <= i < j < |items| ==> items[i].0 != items[j].0) &&
            (forall f :: f in c.count <==> exists i :: 0 <= i < |items| && items[i].0 == f) &&
            (forall i :: 0 <= i < |items| ==> items[i].0 in c.count && items[i].1 == c.count[items[i].0] > 0)
  {
    var items := Items(c);
    forall f | f in c.count ensures exists i :: 0 <= i < |items| && items[i].0 == f {
      var i :| 0 <= i < |c.order| && c.order[i] == f;
      assert items[i].0 == f;
    }
  }
}
