/**
 * Aggregation of the cleaned holdings (lines 217-221 and 276-277 of
 * percentage_nations_etf.py): group by country and sum the weights, sort
 * the group totals in descending order, and express each total as a
 * percentage of the grand total. Weights are exact reals; the script's
 * rounding of the percentages to two decimals is not modelled.
 */
module Aggregation {
  import opened Wrappers
  import opened Frame

  /** One entry of `groupby(country)[weight].sum()`. */
  datatype Group = Group(country: string, total: real)

  /** A percentage, or the NaN/infinity pandas produces when the grand total is zero. */
  datatype Share = Pct(value: real) | NotFinite

  /** Sum of the weights of the holdings whose country is `c`. */
  function SumFor(hs: seq<Holding>, c: string): real
    decreases |hs|
  {
    if hs == [] then 0.0
    else SumFor(hs[..|hs| - 1], c) + (if hs[|hs| - 1].country == c then hs[|hs| - 1].weight else 0.0)
  }

  /** Sum of all weights. */
  function SumWeights(hs: seq<Holding>): real
    decreases |hs|
  {
    if hs == [] then 0.0 else SumWeights(hs[..|hs| - 1]) + hs[|hs| - 1].weight
  }

  /** Sum of the group totals. */
  function Total(gs: seq<Group>): real {
    if gs == [] then 0.0 else gs[0].total + Total(gs[1..])
  }

  /** Some holding belongs to country `c`. */
  ghost predicate InData(hs: seq<Holding>, c: string) {
    exists k :: 0 <= k < |hs| && hs[k].country == c
  }

  /** Some group is for country `c`. */
  ghost predicate HasGroup(gs: seq<Group>, c: string) {
    exists i :: 0 <= i < |gs| && gs[i].country == c
  }

  ghost predicate DistinctCountries(gs: seq<Group>) {
    forall i, j :: 0 <= i < j < |gs| ==> gs[i].country != gs[j].country
  }

  ghost predicate NonIncreasing(gs: seq<Group>) {
    forall i, j :: 0 <= i < j < |gs| ==> gs[i].total >= gs[j].total
  }

  /**
   * What a country-weight series means for a set of holdings: one group per
   * country that has a holding and no other, each with the sum of that
   * country's weights, in non-increasing order of total.
   */
  ghost predicate IsCountryAllocation(gs: seq<Group>, hs: seq<Holding>) {
    && DistinctCountries(gs)
    && (forall c :: HasGroup(gs, c) <==> InData(hs, c))
    && (forall i :: 0 <= i < |gs| ==> gs[i].total == SumFor(hs, gs[i].country))
    && NonIncreasing(gs)
  }

  /** Position of the group for `c`, if there is one. */
  function FindGroup(gs: seq<Group>, c: string): (r: Option<nat>)
    ensures r.Some? ==> r.value < |gs| && gs[r.value].country == c
    ensures r.None? ==> forall i :: 0 <= i < |gs| ==> gs[i].country != c
  {
    if gs == [] then None
    else if gs[0].country == c then Some(0)
    else match FindGroup(gs[1..], c)
      case Some(i) => Some(i + 1)
      case None => None
  }

  /** One step of the group-by: add `h`'s weight to its country's group, opening the group if it is new. */
  function AddHolding(gs: seq<Group>, h: Holding): seq<Group> {
    match FindGroup(gs, h.country)
    case Some(i) => gs[i := Group(h.country, gs[i].total + h.weight)]
    case None => gs + [Group(h.country, h.weight)]
  }

  /**
   * `groupby(country)[weight].sum()`: one group per country present, each
   * holding that country's sum, and nothing lost. pandas orders these groups
   * by country name; the model keeps them in order of first appearance,
   * which only matters for countries with equal totals after the sort.
   */
  function GroupSums(hs: seq<Holding>): (gs: seq<Group>)
    ensures DistinctCountries(gs)
    ensures forall c :: HasGroup(gs, c) <==> InData(hs, c)
    ensures forall i :: 0 <= i < |gs| ==> gs[i].total == SumFor(hs, gs[i].country)
    ensures Total(gs) == SumWeights(hs)
    decreases |hs|
  {
    if hs == [] then []
    else
      var prev := GroupSums(hs[..|hs| - 1]);
      AddHoldingStep(prev, hs);
      AddHolding(prev, hs[|hs| - 1])
  }

  lemma AddHoldingStep(prev: seq<Group>, hs: seq<Holding>)
    requires hs != []
    requires DistinctCountries(prev)
    requires forall c :: HasGroup(prev, c) <==> InData(hs[..|hs| - 1], c)
    requires forall i :: 0 <= i < |prev| ==> prev[i].total == SumFor(hs[..|hs| - 1], prev[i].country)
    requires Total(prev) == SumWeights(hs[..|hs| - 1])
    ensures var gs := AddHolding(prev, hs[|hs| - 1]);
      && DistinctCountries(gs)
      && (forall c :: HasGroup(gs, c) <==> InData(hs, c))
      && (forall i :: 0 <= i < |gs| ==> gs[i].total == SumFor(hs, gs[i].country))
      && Total(gs) == SumWeights(hs)
  {
    var n := |hs| - 1;
    var h := hs[n];
    var init := hs[..n];
    assert forall k :: 0 <= k < n ==> hs[k] == init[k];
    var gs := AddHolding(prev, h);
    forall c ensures InData(hs, c) <==> InData(init, c) || c == h.country {
      if InData(hs, c) {
        var k :| 0 <= k < |hs| && hs[k].country == c;
        if k < n { assert init[k].country == c; }
      }
      if InData(init, c) {
        var k :| 0 <= k < |init| && init[k].country == c;
        assert hs[k].country == c;
      }
    }
    match FindGroup(prev, h.country)
    case Some(i) =>
      assert gs == prev[i := Group(h.country, prev[i].total + h.weight)];
      TotalUpdate(prev, i, Group(h.country, prev[i].total + h.weight));
      forall c ensures HasGroup(gs, c) <==> HasGroup(prev, c) {
        if HasGroup(prev, c) {
          var j :| 0 <= j < |prev| && prev[j].country == c;
          assert gs[j].country == c;
        }
        if HasGroup(gs, c) {
          var j :| 0 <= j < |gs| && gs[j].country == c;
          assert prev[j].country == c;
        }
      }
    case None =>
      assert gs == prev + [Group(h.country, h.weight)];
      TotalAppend(prev, Group(h.country, h.weight));
      assert !HasGroup(prev, h.country);
      assert !InData(init, h.country);
      SumForAbsent(init, h.country);
      forall c ensures HasGroup(gs, c) <==> HasGroup(prev, c) || c == h.country {
        if HasGroup(prev, c) {
          var j :| 0 <= j < |prev| && prev[j].country == c;
          assert gs[j].country == c;
        }
        if HasGroup(gs, c) {
          var j :| 0 <= j < |gs| && gs[j].country == c;
          if j < |prev| { assert prev[j].country == c; }
        }
        if c == h.country { assert gs[|prev|].country == c; }
      }
  }

  lemma {:induction false} SumForAbsent(hs: seq<Holding>, c: string)
    requires !InData(hs, c)
    ensures SumFor(hs, c) == 0.0
    decreases |hs|
  {
    if hs != [] {
      var init := hs[..|hs| - 1];
      forall k | 0 <= k < |init| ensures init[k].country != c {
        assert init[k] == hs[k];
      }
      SumForAbsent(init, c);
      assert hs[|hs| - 1].country != c;
    }
  }

  lemma {:induction false} TotalAppend(gs: seq<Group>, g: Group)
    ensures Total(gs + [g]) == Total(gs) + g.total
  {
    if gs == [] {
      assert gs + [g] == [g];
      assert [g][1..] == [];
    } else {
      assert (gs + [g])[1..] == gs[1..] + [g];
      TotalAppend(gs[1..], g);
    }
  }

  lemma {:induction false} TotalUpdate(gs: seq<Group>, i: nat, g: Group)
    requires i < |gs|
    ensures Total(gs[i := g]) == Total(gs) - gs[i].total + g.total
  {
    if i == 0 {
      assert gs[i := g][1..] == gs[1..];
    } else {
      assert gs[i := g][1..] == gs[1..][i - 1 := g];
      TotalUpdate(gs[1..], i - 1, g);
    }
  }

  /**
   * Insertion of one group into a list sorted by descending total, before
   * the first group whose total is not larger (so equal totals keep their
   * earlier order).
   */
  function InsertByTotal(g: Group, gs: seq<Group>): (r: seq<Group>)
    requires NonIncreasing(gs)
    ensures NonIncreasing(r)
    ensures multiset(r) == multiset(gs) + multiset{g}
    ensures Total(r) == g.total + Total(gs)
    ensures forall x :: x in r <==> x == g || x in gs
  {
    if gs == [] || g.total >= gs[0].total then
      assert ([g] + gs)[1..] == gs;
      [g] + gs
    else
      var rest := InsertByTotal(g, gs[1..]);
      assert gs == [gs[0]] + gs[1..];
      InsertBehindHead(g, gs, rest);
      [gs[0]] + rest
  }

  /** Putting the head back in front of the insertion into the tail keeps the order and the members. */
  lemma InsertBehindHead(g: Group, gs: seq<Group>, rest: seq<Group>)
    requires gs != [] && g.total < gs[0].total && NonIncreasing(gs)
    requires NonIncreasing(rest)
    requires forall x :: x in rest <==> x == g || x in gs[1..]
    ensures NonIncreasing([gs[0]] + rest)
    ensures forall x :: x in [gs[0]] + rest <==> x == g || x in gs
  {
    assert gs == [gs[0]] + gs[1..];
    forall x | x in rest ensures gs[0].total >= x.total {
      if x != g {
        var k :| 0 <= k < |gs[1..]| && gs[1..][k] == x;
        assert gs[k + 1] == x;
      }
    }
    var r := [gs[0]] + rest;
    forall i, j | 0 <= i < j < |r| ensures r[i].total >= r[j].total {
      assert r[j] == rest[j - 1];
      if i > 0 {
        assert r[i] == rest[i - 1];
      } else {
        assert rest[j - 1] in rest;
      }
    }
  }

  /** `sort_values(ascending=False)`: a permutation of the groups in non-increasing order of total. */
  function SortDescending(gs: seq<Group>): (r: seq<Group>)
    ensures NonIncreasing(r)
    ensures multiset(r) == multiset(gs)
    ensures Total(r) == Total(gs)
  {
    if gs == [] then []
    else
      assert gs == [gs[0]] + gs[1..];
      InsertByTotal(gs[0], SortDescending(gs[1..]))
  }

  /** A list has distinct countries exactly when its tail does and its head's country is not in the tail. */
  lemma DistinctCons(g: Group, t: seq<Group>)
    ensures DistinctCountries([g] + t) <==> DistinctCountries(t) && forall x :: x in t ==> x.country != g.country
  {
    var r := [g] + t;
    if DistinctCountries(t) && forall x :: x in t ==> x.country != g.country {
      forall i, j | 0 <= i < j < |r| ensures r[i].country != r[j].country {
        assert r[j] == t[j - 1];
        if i > 0 { assert r[i] == t[i - 1]; }
      }
    }
    if DistinctCountries(r) {
      forall i, j | 0 <= i < j < |t| ensures t[i].country != t[j].country {
        assert t[i] == r[i + 1] && t[j] == r[j + 1];
      }
      forall x | x in t ensures x.country != g.country {
        var j :| 0 <= j < |t| && t[j] == x;
        assert r[0] == g && r[j + 1] == x;
      }
    }
  }

  /** Sorting keeps countries distinct. */
  lemma {:induction false} SortKeepsDistinct(gs: seq<Group>)
    requires DistinctCountries(gs)
    ensures DistinctCountries(SortDescending(gs))
  {
    if gs != [] {
      assert gs == [gs[0]] + gs[1..];
      DistinctCons(gs[0], gs[1..]);
      SortKeepsDistinct(gs[1..]);
      var rest := SortDescending(gs[1..]);
      forall x | x in rest ensures x.country != gs[0].country {
        assert x in multiset(gs[1..]);
      }
      InsertFreshKeepsDistinct(gs[0], rest);
    }
  }

  lemma {:induction false} InsertFreshKeepsDistinct(g: Group, gs: seq<Group>)
    requires NonIncreasing(gs) && DistinctCountries(gs)
    requires forall x :: x in gs ==> x.country != g.country
    ensures DistinctCountries(InsertByTotal(g, gs))
  {
    if gs == [] || g.total >= gs[0].total {
      DistinctCons(g, gs);
    } else {
      assert gs == [gs[0]] + gs[1..];
      DistinctCons(gs[0], gs[1..]);
      assert forall x :: x in gs[1..] ==> x in gs;
      InsertFreshKeepsDistinct(g, gs[1..]);
      var rest := InsertByTotal(g, gs[1..]);
      assert g.country != gs[0].country by { assert gs[0] in gs; }
      DistinctCons(gs[0], rest);
    }
  }

  /**
   * `groupby(country)[weight].sum().sort_values(ascending=False)`: the
   * country allocation of the holdings, whose totals add up to the sum of
   * all weights.
   */
  function CountryWeights(hs: seq<Holding>): (gs: seq<Group>)
    ensures IsCountryAllocation(gs, hs)
    ensures Total(gs) == SumWeights(hs)
  {
    var sums := GroupSums(hs);
    var gs := SortDescending(sums);
    SortKeepsDistinct(sums);
    PermutationKeepsGroups(sums, gs);
    gs
  }

  /** A permutation of the groups has the same countries, and each of its groups is one of the originals. */
  lemma PermutationKeepsGroups(gs: seq<Group>, r: seq<Group>)
    requires multiset(r) == multiset(gs)
    ensures forall i :: 0 <= i < |r| ==> r[i] in gs
    ensures forall c :: HasGroup(r, c) <==> HasGroup(gs, c)
  {
    forall i | 0 <= i < |r| ensures r[i] in gs {
      assert r[i] in multiset(r);
    }
    forall c ensures HasGroup(r, c) <==> HasGroup(gs, c) {
      if HasGroup(r, c) {
        var i :| 0 <= i < |r| && r[i].country == c;
        var j :| 0 <= j < |gs| && gs[j] == r[i];
      }
      if HasGroup(gs, c) {
        var j :| 0 <= j < |gs| && gs[j].country == c;
        assert gs[j] in multiset(r);
        var i :| 0 <= i < |r| && r[i] == gs[j];
      }
    }
  }

  /** `country_weights / total_weight * 100`, before rounding; NaN or infinite throughout when the total is zero. */
  function Percentages(gs: seq<Group>): seq<Share> {
    var t := Total(gs);
    seq(|gs|, i requires 0 <= i < |gs| => if t == 0.0 then NotFinite else Pct(gs[i].total / t * 100.0))
  }

  /** Each total as a percentage of `grand`. */
  function Scaled(gs: seq<Group>, grand: real): (ps: seq<Share>)
    requires grand != 0.0
    ensures |ps| == |gs|
  {
    seq(|gs|, i requires 0 <= i < |gs| => Pct(gs[i].total / grand * 100.0))
  }

  /** Sum of the finite percentages. */
  function PctSum(ps: seq<Share>): real {
    if ps == [] then 0.0
    else (match ps[0] case Pct(v) => v case NotFinite => 0.0) + PctSum(ps[1..])
  }

  /** With a non-zero grand total the percentages add up to exactly 100. */
  lemma PercentagesSumTo100(gs: seq<Group>)
    requires Total(gs) != 0.0
    ensures PctSum(Percentages(gs)) == 100.0
  {
    assert Percentages(gs) == Scaled(gs, Total(gs));
    ScaledSum(gs, Total(gs));
    DivSelf(Total(gs));
  }

  lemma DivSelf(t: real)
    requires t != 0.0
    ensures t / t * 100.0 == 100.0
  {
  }

  lemma {:induction false} ScaledSum(gs: seq<Group>, grand: real)
    requires grand != 0.0
    ensures PctSum(Scaled(gs, grand)) == Total(gs) / grand * 100.0
  {
    if gs != [] {
      assert Scaled(gs, grand)[1..] == Scaled(gs[1..], grand);
      ScaledSum(gs[1..], grand);
      DivAdd(gs[0].total, Total(gs[1..]), grand);
    }
  }

  lemma DivAdd(a: real, b: real, d: real)
    requires d != 0.0
    ensures a / d * 100.0 + b / d * 100.0 == (a + b) / d * 100.0
  {
  }

  /** With a zero grand total every percentage is NaN or infinite. */
  lemma PercentagesZeroTotal(gs: seq<Group>)
    requires Total(gs) == 0.0
    ensures |Percentages(gs)| == |gs|
    ensures forall i :: 0 <= i < |gs| ==> Percentages(gs)[i] == NotFinite
  {
  }

  /** With a positive grand total the percentages are in the same non-increasing order as the totals. */
  lemma PercentagesNonIncreasing(gs: seq<Group>)
    requires Total(gs) > 0.0 && NonIncreasing(gs)
    ensures forall i, j :: 0 <= i < j < |gs| ==> Percentages(gs)[i].value >= Percentages(gs)[j].value
  {
    assert Percentages(gs) == Scaled(gs, Total(gs));
    ScaledNonIncreasing(gs, Total(gs));
  }

  lemma ScaledNonIncreasing(gs: seq<Group>, grand: real)
    requires grand > 0.0 && NonIncreasing(gs)
    ensures forall i, j :: 0 <= i < j < |gs| ==> Scaled(gs, grand)[i].value >= Scaled(gs, grand)[j].value
  {
    forall i, j | 0 <= i < j < |gs| ensures Scaled(gs, grand)[i].value >= Scaled(gs, grand)[j].value {
      DivMonotone(gs[j].total, gs[i].total, grand);
    }
  }

  lemma DivMonotone(a: real, b: real, d: real)
    requires d > 0.0 && a <= b
    ensures a / d * 100.0 <= b / d * 100.0
  {
  }

  /**
   * Holdings of 40 and 30 in the United States and 30 in Japan give the
   * United States 70 (70%) ahead of Japan 30 (30%).
   */
  lemma TwoCountryExample(hs: seq<Holding>)
    requires hs == [Holding(0, "United States", 40.0), Holding(1, "United States", 30.0), Holding(2, "Japan", 30.0)]
    ensures CountryWeights(hs) == [Group("United States", 70.0), Group("Japan", 30.0)]
    ensures Percentages(CountryWeights(hs)) == [Pct(70.0), Pct(30.0)]
  {
    var sums := [Group("United States", 70.0), Group("Japan", 30.0)];
    ExampleGroupSums(hs);
    ExampleSorted(sums);
    ExamplePercentages(sums);
  }

  lemma ExampleGroupSums(hs: seq<Holding>)
    requires hs == [Holding(0, "United States", 40.0), Holding(1, "United States", 30.0), Holding(2, "Japan", 30.0)]
    ensures GroupSums(hs) == [Group("United States", 70.0), Group("Japan", 30.0)]
  {
    var one := hs[..1];
    var two := hs[..2];
    assert two[..1] == one && one[..0] == [];
    assert GroupSums(one) == AddHolding([], hs[0]);
    assert GroupSums(two) == AddHolding([Group("United States", 40.0)], hs[1]);
    assert FindGroup([Group("United States", 70.0)], "Japan") == None;
    assert GroupSums(hs) == AddHolding([Group("United States", 70.0)], hs[2]);
  }

  lemma ExampleSorted(gs: seq<Group>)
    requires gs == [Group("United States", 70.0), Group("Japan", 30.0)]
    ensures SortDescending(gs) == gs
  {
    assert SortDescending(gs[1..][1..]) == [];
    assert SortDescending(gs[1..]) == [gs[1]];
  }

  lemma ExamplePercentages(gs: seq<Group>)
    requires gs == [Group("United States", 70.0), Group("Japan", 30.0)]
    ensures Percentages(gs) == [Pct(70.0), Pct(30.0)]
  {
    assert Total(gs[1..]) == 30.0;
    assert Total(gs) == 100.0;
  }
}
