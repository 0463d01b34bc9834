/** The fairness engine: who should pay next. Totals are integer cents and
    weights are hundredths, so weight 1 is 100 and weight 100 is 10000; a
    difference of `d` cents between a total and the lowest total lowers the
    weight by `d` hundredths, exactly as a difference of `d / 100` lowers a
    weight of 100. */
module Fairness {
  import opened Document
  import opened Display
  import opened SetFacts

  /** Weight 1: the uniform weight of the cold-start and mixed policies. */
  const UnitWeight: int := 100

  /** Weight 100: what the lowest payer gets once everyone has paid. */
  const FullWeight: int := 10000

  /** Each name's total in cents, as read from the document. */
  function Totals(doc: Doc): (t: map<string, int>)
    ensures t.Keys == Names(doc)
    ensures forall i :: LastWithName(doc, i) ==> t[doc[i].name] == SumAmounts(doc[i].records)
  {
    var view := DisplayData(doc);
    forall i | LastWithName(doc, i)
      ensures view[doc[i].name].total == SumAmounts(doc[i].records)
    {
      DisplayOfLast(doc, i);
    }
    map n | n in view :: view[n].total
  }

  /** The names whose total is exactly zero. */
  function ZeroTotals(t: map<string, int>): (z: set<string>)
    ensures z <= t.Keys
  {
    set n | n in t && t[n] == 0
  }

  /** Every name of `keys` with weight 1. */
  function Uniform(keys: set<string>): map<string, int>
  {
    map n | n in keys :: UnitWeight
  }

  /** The lowest total. */
  function Lowest(t: map<string, int>): (low: int)
    requires |t| > 0
    ensures exists n :: n in t && t[n] == low
    ensures forall n :: n in t ==> low <= t[n]
  {
    var someone :| someone in t;
    assert t[someone] in t.Values;
    HasLeast(t.Values);
    var m :| m in t.Values && forall x :: x in t.Values ==> m <= x;
    assert forall n :: n in t ==> t[n] in t.Values;
    m
  }

  /** The weights of the fully warmed policy: 100 minus the distance to the
      lowest total, keeping only names whose weight stays above zero. */
  function WarmWeights(t: map<string, int>): map<string, int>
    requires |t| > 0
  {
    var low := Lowest(t);
    map n | n in t && FullWeight - (t[n] - low) > 0 :: FullWeight - (t[n] - low)
  }

  /** The next-payment weights. A name absent from the result has weight zero. */
  function NextPayment(t: map<string, int>): (w: map<string, int>)
    ensures w.Keys <= t.Keys
    ensures forall n :: n in w ==> 0 < w[n] <= FullWeight
  {
    var zeros := ZeroTotals(t);
    if |zeros| == |t| then
      Uniform(t.Keys)
    else if |zeros| == 0 then
      var weighted := WarmWeights(t);
      if |weighted| == 0 then Uniform(t.Keys) else weighted
    else
      Uniform(zeros)
  }

  /** The next-payment weights of a document. */
  function NextPaymentOf(doc: Doc): (w: map<string, int>)
    ensures w.Keys <= Names(doc)
  {
    NextPayment(Totals(doc))
  }

  /** Cold start: when nobody has paid anything, everyone gets weight 1.
      An empty document gives an empty map. */
  lemma ColdStart(t: map<string, int>)
    requires forall n :: n in t ==> t[n] == 0
    ensures NextPayment(t).Keys == t.Keys
    ensures forall n :: n in t ==> NextPayment(t)[n] == UnitWeight
  {
    assert ZeroTotals(t) == t.Keys;
  }

  /** Mixed: when some but not all totals are zero, exactly the zero-total
      names are offered, each with weight 1. */
  lemma Mixed(t: map<string, int>)
    requires exists n :: n in t && t[n] == 0
    requires exists n :: n in t && t[n] != 0
    ensures NextPayment(t).Keys == ZeroTotals(t)
    ensures forall n :: n in NextPayment(t) ==> NextPayment(t)[n] == UnitWeight
  {
    var zeros := ZeroTotals(t);
    var paid :| paid in t && t[paid] != 0;
    var idle :| idle in t && t[idle] == 0;
    SameSizeSubset(zeros, t.Keys);
    assert paid !in zeros;
    assert idle in zeros;
  }

  /** Fully warmed: with no zero total the lowest payer keeps weight 100, so
      the drop-zero step never empties the result and the uniform fallback
      is never taken. */
  lemma {:induction false} WarmFallbackUnreachable(t: map<string, int>)
    requires |t| > 0
    requires forall n :: n in t ==> t[n] != 0
    ensures |WarmWeights(t)| > 0
    ensures NextPayment(t) == WarmWeights(t)
  {
    var low := Lowest(t);
    var n :| n in t && t[n] == low;
    assert n in WarmWeights(t);
    assert ZeroTotals(t) == {};
    assert ZeroTotals(t) != t.Keys;
    SameSizeSubset(ZeroTotals(t), t.Keys);
  }

  /** Fully warmed, exact weights: a name is offered exactly when 100 minus
      its distance to the lowest total is positive, and that is its weight. */
  lemma WarmExact(t: map<string, int>)
    requires |t| > 0
    requires forall n :: n in t ==> t[n] != 0
    ensures forall n :: n in NextPayment(t) <==> n in t && FullWeight - (t[n] - Lowest(t)) > 0
    ensures forall n :: n in NextPayment(t) ==> NextPayment(t)[n] == FullWeight - (t[n] - Lowest(t))
  {
    WarmFallbackUnreachable(t);
  }

  /** Fully warmed, bounds: the result is non-empty and every lowest payer has weight 100. */
  lemma WarmLowestGetsFull(t: map<string, int>)
    requires |t| > 0
    requires forall n :: n in t ==> t[n] != 0
    ensures |NextPayment(t)| > 0
    ensures forall n :: n in t && t[n] == Lowest(t) ==> n in NextPayment(t) && NextPayment(t)[n] == FullWeight
  {
    WarmFallbackUnreachable(t);
  }

  /** Fully warmed, monotonicity: paying more never raises the weight, and a
      name that paid no more than an offered name is offered too. */
  lemma WarmMonotone(t: map<string, int>, a: string, b: string)
    requires forall n :: n in t ==> t[n] != 0
    requires a in t && b in t && t[a] <= t[b]
    requires b in NextPayment(t)
    ensures a in NextPayment(t)
    ensures NextPayment(t)[a] >= NextPayment(t)[b]
  {
    WarmFallbackUnreachable(t);
  }

  /** Fully warmed with equal totals: everyone gets weight 100, not the
      uniform fallback. */
  lemma WarmAllEqual(t: map<string, int>, c: int)
    requires c != 0
    requires forall n :: n in t ==> t[n] == c
    ensures NextPayment(t).Keys == t.Keys
    ensures forall n :: n in t ==> NextPayment(t)[n] == FullWeight
  {
    if |t| > 0 {
      WarmFallbackUnreachable(t);
      assert Lowest(t) == c;
    }
  }

  /** Worked example: {Alice: 0, Bob: 50, Carol: 0} gives {Alice: 1, Carol: 1}. */
  lemma ExampleMixed()
    ensures NextPayment(map["Alice" := 0, "Bob" := 5000, "Carol" := 0])
      == map["Alice" := UnitWeight, "Carol" := UnitWeight]
  {
    var t := map["Alice" := 0, "Bob" := 5000, "Carol" := 0];
    assert t["Alice"] == 0 && t["Bob"] != 0;
    Mixed(t);
    assert ZeroTotals(t) == {"Alice", "Carol"};
  }

  /** Worked example: {Alice: 10, Bob: 60} gives {Alice: 100, Bob: 50}. */
  lemma ExampleWarm()
    ensures NextPayment(map["Alice" := 1000, "Bob" := 6000])
      == map["Alice" := FullWeight, "Bob" := 5000]
  {
    var t := map["Alice" := 1000, "Bob" := 6000];
    WarmExact(t);
    assert Lowest(t) == 1000 by {
      assert t["Alice"] == 1000;
    }
  }

  /** Worked example: {Alice: 10, Bob: 120} drops Bob, 110 above the lowest. */
  lemma ExampleWarmDrop()
    ensures NextPayment(map["Alice" := 1000, "Bob" := 12000]) == map["Alice" := FullWeight]
  {
    var t := map["Alice" := 1000, "Bob" := 12000];
    WarmExact(t);
    assert Lowest(t) == 1000 by {
      assert t["Alice"] == 1000;
    }
  }
}
