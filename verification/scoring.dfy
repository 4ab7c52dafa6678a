/** Preference handling and scoring: turning a user's factor ranking into
    weights, min-max normalisation, and the weighted score of every open
    eatery. A weight mapping is a sequence of `(factor, weight)` pairs in
    the insertion order of the Python dict. */
module Scoring {
  import opened Values
  import opened Paths
  import opened GraphStore
  import opened AttributeStore
  import OpenHours

  type Weights = seq<(string, real)>

  const KnownFactors: set<string> :=
    {"rating", "price", "distance", "power_outlet", "halal_certified", "wifi", "aircon"}

  /** The factors where a lower value is better. */
  const CostFactors: set<string> := {"price", "distance"}

  /** The raw default preferences 0.20, 0.20, 0.20, 0.15, 0.15, 0.10 and
      0.10, each divided by their sum 1.1. */
  const DefaultWeights: Weights := [
    ("rating", 0.20 / 1.1), ("price", 0.20 / 1.1), ("distance", 0.20 / 1.1),
    ("power_outlet", 0.15 / 1.1), ("halal_certified", 0.15 / 1.1),
    ("wifi", 0.10 / 1.1), ("aircon", 0.10 / 1.1)]

  function WeightSum(w: Weights): real
  {
    if w == [] then 0.0 else w[0].1 + WeightSum(w[1..])
  }

  predicate NonNegative(w: Weights)
  {
    forall i :: 0 <= i < |w| ==> w[i].1 >= 0.0
  }

  /** The default weights sum to one. */
  lemma DefaultWeightsSum()
    ensures WeightSum(DefaultWeights) == 1.0
  {
    var d := DefaultWeights;
    assert WeightSum(d[6..]) == 0.10 / 1.1 by { assert d[6..][1..] == []; }
    assert WeightSum(d[5..]) == 0.20 / 1.1 by { assert d[5..][1..] == d[6..]; }
    assert WeightSum(d[4..]) == 0.35 / 1.1 by { assert d[4..][1..] == d[5..]; }
    assert WeightSum(d[3..]) == 0.50 / 1.1 by { assert d[3..][1..] == d[4..]; }
    assert WeightSum(d[2..]) == 0.70 / 1.1 by { assert d[2..][1..] == d[3..]; }
    assert WeightSum(d[1..]) == 0.90 / 1.1 by { assert d[1..][1..] == d[2..]; }
  }

  /** The default weights are positive and cover exactly the known factors. */
  lemma DefaultWeightsCover()
    ensures forall i :: 0 <= i < |DefaultWeights| ==> DefaultWeights[i].1 > 0.0 && DefaultWeights[i].0 in KnownFactors
    ensures forall k :: k in KnownFactors ==> exists i :: 0 <= i < |DefaultWeights| && DefaultWeights[i].0 == k
  {
    var d := DefaultWeights;
    assert d[0].0 == "rating" && d[1].0 == "price" && d[2].0 == "distance" && d[3].0 == "power_outlet";
    assert d[4].0 == "halal_certified" && d[5].0 == "wifi" && d[6].0 == "aircon";
  }

  // ---------------------------------------------------------------------
  // convert_ranks_to_weights
  // ---------------------------------------------------------------------

  /** A ranking entry that counts: a known factor whose rank reads as a
      positive integer. */
  predicate Usable(p: (string, Value))
  {
    p.0 in KnownFactors && ToInt(p.1).Some? && ToInt(p.1).value > 0
  }

  /** The usable entries of a ranking, in order, with their ranks as integers. */
  function ValidRanks(ranks: seq<(string, Value)>): (v: seq<(string, int)>)
    ensures |v| <= |ranks|
    ensures forall i :: 0 <= i < |v| ==> v[i].0 in KnownFactors && v[i].1 > 0
    ensures v == [] <==> forall j :: 0 <= j < |ranks| ==> !Usable(ranks[j])
  {
    if ranks == [] then []
    else
      var rest := ValidRanks(ranks[1..]);
      assert forall j :: 1 <= j < |ranks| ==> ranks[1..][j - 1] == ranks[j];
      if Usable(ranks[0]) then [(ranks[0].0, ToInt(ranks[0].1).value)] + rest else rest
  }

  function MaxRank(v: seq<(string, int)>): (m: int)
    requires |v| > 0
    ensures forall i :: 0 <= i < |v| ==> v[i].1 <= m
    ensures exists i :: 0 <= i < |v| && v[i].1 == m
  {
    if |v| == 1 then v[0].1
    else
      var m := MaxRank(v[1..]);
      assert forall i :: 1 <= i < |v| ==> v[1..][i - 1] == v[i];
      if v[0].1 > m then v[0].1 else m
  }

  /** The sum of the inverted ranks `m - r + 1`. */
  function InverseTotal(v: seq<(string, int)>, m: int): (t: int)
    ensures (forall i :: 0 <= i < |v| ==> v[i].1 <= m) ==> t >= |v|
  {
    if v == [] then 0
    else
      assert forall i :: 1 <= i < |v| ==> v[1..][i - 1] == v[i];
      (m - v[0].1 + 1) + InverseTotal(v[1..], m)
  }

  /** Each factor's inverted rank divided by `total`. */
  function Shares(v: seq<(string, int)>, m: int, total: real): (w: Weights)
    requires total > 0.0
    ensures |w| == |v|
    ensures forall i :: 0 <= i < |v| ==> w[i] == (v[i].0, (m - v[i].1 + 1) as real / total)
    ensures (forall i :: 0 <= i < |v| ==> v[i].1 <= m) ==> forall i :: 0 <= i < |w| ==> w[i].1 > 0.0
  {
    if v == [] then []
    else
      assert forall i :: 1 <= i < |v| ==> v[1..][i - 1] == v[i];
      var rest := Shares(v[1..], m, total);
      assert v[0].1 <= m ==> (m - v[0].1 + 1) as real / total > 0.0 by {
        if v[0].1 <= m {
          PositiveQuotient((m - v[0].1 + 1) as real, total);
        }
      }
      [(v[0].0, (m - v[0].1 + 1) as real / total)] + rest
  }

  /** The weights of a non-empty list of usable ranks: each inverted rank
      `max_rank - rank + 1` over the sum of all of them. */
  function RankWeights(v: seq<(string, int)>): (w: Weights)
    requires v != []
    ensures |w| == |v| && forall i :: 0 <= i < |w| ==> w[i].0 == v[i].0 && w[i].1 > 0.0
  {
    var m := MaxRank(v);
    Shares(v, m, InverseTotal(v, m) as real)
  }

  /** `convert_ranks_to_weights(rank_dict)`, before the rounding to four
      decimals. An empty ranking, or one with no usable entry, yields the
      defaults; otherwise the usable factors keep their order and get
      weights in proportion to their inverted ranks. */
  function ConvertRanksToWeights(ranks: seq<(string, Value)>): (w: Weights)
    ensures ranks == [] || (forall j :: 0 <= j < |ranks| ==> !Usable(ranks[j])) ==> w == DefaultWeights
    ensures ValidRanks(ranks) != [] ==>
      |w| == |ValidRanks(ranks)| && forall i :: 0 <= i < |w| ==> w[i].0 == ValidRanks(ranks)[i].0
    ensures forall i :: 0 <= i < |w| ==> w[i].0 in KnownFactors && w[i].1 > 0.0
  {
    var v := ValidRanks(ranks);
    if ranks == [] || v == [] then
      DefaultWeightsCover();
      DefaultWeights
    else RankWeights(v)
  }

  /** The weights from a ranking always sum to one (before rounding). */
  lemma WeightsSumToOne(ranks: seq<(string, Value)>)
    ensures WeightSum(ConvertRanksToWeights(ranks)) == 1.0
  {
    var v := ValidRanks(ranks);
    if ranks == [] || v == [] {
      DefaultWeightsSum();
    } else {
      var m := MaxRank(v);
      var t := InverseTotal(v, m) as real;
      assert ConvertRanksToWeights(ranks) == Shares(v, m, t);
      SharesSum(v, m, t);
      SelfQuotient(t);
    }
  }

  lemma {:induction false} SharesSum(v: seq<(string, int)>, m: int, total: real)
    requires total > 0.0
    ensures WeightSum(Shares(v, m, total)) == InverseTotal(v, m) as real / total
    decreases |v|
  {
    if v != [] {
      SharesStep(v, m, total);
      SharesSum(v[1..], m, total);
      Accumulate(WeightSum(Shares(v, m, total)), (m - v[0].1 + 1) as real, InverseTotal(v[1..], m) as real,
                 WeightSum(Shares(v[1..], m, total)), InverseTotal(v, m) as real, total);
    }
  }

  lemma SharesStep(v: seq<(string, int)>, m: int, total: real)
    requires total > 0.0 && v != []
    ensures WeightSum(Shares(v, m, total)) == (m - v[0].1 + 1) as real / total + WeightSum(Shares(v[1..], m, total))
    ensures InverseTotal(v, m) as real == (m - v[0].1 + 1) as real + InverseTotal(v[1..], m) as real
  {
    var s := Shares(v, m, total);
    assert s[1..] == Shares(v[1..], m, total);
  }

  lemma Accumulate(x: real, a: real, rest: real, y: real, sum: real, t: real)
    requires t > 0.0 && x == a / t + y && y == rest / t && sum == a + rest
    ensures x == sum / t
  {
    SumOfQuotients(a, rest, t);
  }

  /** A smaller rank number gives a strictly larger weight and equal ranks
      give equal weights: the weights order the factors exactly as the
      ranks do, reversed. */
  lemma RanksOrderWeights(ranks: seq<(string, Value)>, i: nat, j: nat)
    requires i < |ValidRanks(ranks)| && j < |ValidRanks(ranks)|
    ensures ValidRanks(ranks)[i].1 < ValidRanks(ranks)[j].1 <==>
      ConvertRanksToWeights(ranks)[i].1 > ConvertRanksToWeights(ranks)[j].1
    ensures ValidRanks(ranks)[i].1 == ValidRanks(ranks)[j].1 ==>
      ConvertRanksToWeights(ranks)[i].1 == ConvertRanksToWeights(ranks)[j].1
  {
    var v := ValidRanks(ranks);
    var w := ConvertRanksToWeights(ranks);
    var m := MaxRank(v);
    var t := InverseTotal(v, m) as real;
    WeightAt(ranks, i);
    WeightAt(ranks, j);
    InvertedOrder(w[i].1, w[j].1, v[i].1, v[j].1, m, t);
  }

  /** `w` is the inverted rank `m - r + 1` over the positive total `t`. */
  predicate InvertedShare(w: real, r: int, m: int, t: real)
  {
    t > 0.0 && w == (m - r + 1) as real / t
  }

  /** The weight at position `i` is that factor's inverted rank over the total. */
  lemma WeightAt(ranks: seq<(string, Value)>, i: nat)
    requires i < |ValidRanks(ranks)|
    ensures InvertedShare(ConvertRanksToWeights(ranks)[i].1, ValidRanks(ranks)[i].1, MaxRank(ValidRanks(ranks)),
                          InverseTotal(ValidRanks(ranks), MaxRank(ValidRanks(ranks))) as real)
  {
    var v := ValidRanks(ranks);
    assert ConvertRanksToWeights(ranks) == RankWeights(v);
    RankWeightAt(v, i);
  }

  lemma RankWeightAt(v: seq<(string, int)>, i: nat)
    requires i < |v|
    ensures InvertedShare(RankWeights(v)[i].1, v[i].1, MaxRank(v), InverseTotal(v, MaxRank(v)) as real)
  {
    var m := MaxRank(v);
    assert RankWeights(v) == Shares(v, m, InverseTotal(v, m) as real);
  }

  lemma InvertedOrder(wi: real, wj: real, ri: int, rj: int, m: int, t: real)
    requires InvertedShare(wi, ri, m, t) && InvertedShare(wj, rj, m, t)
    ensures ri < rj <==> wi > wj
    ensures ri == rj ==> wi == wj
  {
    QuotientOrder((m - rj + 1) as real, (m - ri + 1) as real, t);
  }

  // Facts about real division and multiplication, kept apart from the model
  // so that each is proved over plain numbers.

  lemma PositiveQuotient(a: real, b: real)
    requires a > 0.0 && b > 0.0
    ensures a / b > 0.0
  {
  }

  lemma ZeroQuotient(t: real)
    requires t > 0.0
    ensures 0.0 / t == 0.0
  {
  }

  lemma SumOfQuotients(a: real, b: real, t: real)
    requires t > 0.0
    ensures a / t + b / t == (a + b) / t
  {
  }

  lemma SelfQuotient(t: real)
    requires t > 0.0
    ensures t / t == 1.0
  {
  }

  lemma QuotientOrder(a: real, b: real, t: real)
    requires t > 0.0
    ensures a < b <==> a / t < b / t
  {
    SumOfQuotients(b - a, a, t);
    if a < b {
      PositiveQuotient(b - a, t);
    } else if a > b {
      PositiveQuotient(a - b, t);
      SumOfQuotients(a - b, b, t);
    }
  }

  lemma FractionInUnit(a: real, d: real)
    requires 0.0 <= a <= d && d > 0.0
    ensures 0.0 <= a / d <= 1.0
  {
    SelfQuotient(d);
    if a > 0.0 {
      PositiveQuotient(a, d);
    }
    if a < d {
      QuotientOrder(a, d, d);
    }
  }

  lemma ScaleUnit(w: real, n: real)
    requires w >= 0.0 && 0.0 <= n <= 1.0
    ensures 0.0 <= w * n <= w
  {
    assert w - w * n == w * (1.0 - n);
  }

  lemma ScaleMonotone(w: real, x: real, y: real)
    requires w >= 0.0 && x <= y
    ensures w * x <= w * y
  {
    assert w * y - w * x == w * (y - x);
  }

  // ---------------------------------------------------------------------
  // normalize_value
  // ---------------------------------------------------------------------

  /** `max(min_val, min(value, max_val))`. */
  function Clamp(value: real, min: real, max: real): (c: real)
    requires min < max
    ensures min <= c <= max
    ensures min <= value <= max ==> c == value
  {
    if value < min then min else if value > max then max else value
  }

  /** `normalize_value(value, min_val, max_val, invert)`: the clamped value's
      position in `[min, max]`, turned round for a cost factor; 0.5 when the
      range is empty. */
  function NormalizeValue(value: real, min: real, max: real, invert: bool): (r: real)
    ensures 0.0 <= r <= 1.0
    ensures max <= min ==> r == 0.5
  {
    if max <= min then 0.5
    else
      var c := Clamp(value, min, max);
      FractionInUnit(c - min, max - min);
      var normalized := (c - min) / (max - min);
      if invert then 1.0 - normalized else normalized
  }

  /** On a proper range the ends map to 0 and 1 (and the other way round when
      inverted), and the inverted value is the complement of the plain one. */
  lemma NormalizeEnds(value: real, min: real, max: real)
    requires min < max
    ensures NormalizeValue(min, min, max, false) == 0.0 && NormalizeValue(max, min, max, false) == 1.0
    ensures NormalizeValue(min, min, max, true) == 1.0 && NormalizeValue(max, min, max, true) == 0.0
    ensures NormalizeValue(value, min, max, true) == 1.0 - NormalizeValue(value, min, max, false)
  {
    SelfQuotient(max - min);
    ZeroQuotient(max - min);
    assert Clamp(min, min, max) == min && Clamp(max, min, max) == max;
  }

  /** Normalisation keeps the order of values, and inversion reverses it. */
  lemma NormalizeMonotone(a: real, b: real, min: real, max: real)
    requires a <= b
    ensures NormalizeValue(a, min, max, false) <= NormalizeValue(b, min, max, false)
    ensures NormalizeValue(a, min, max, true) >= NormalizeValue(b, min, max, true)
  {
    if min < max {
      var ca, cb := Clamp(a, min, max), Clamp(b, min, max);
      assert ca <= cb;
      if ca < cb {
        QuotientOrder(ca - min, cb - min, max - min);
      }
    }
  }

  // ---------------------------------------------------------------------
  // compute_scores
  // ---------------------------------------------------------------------

  /** `attributes[e].get('hours', '')`. */
  function HoursOf(rec: Record): Value
  {
    if "hours" in rec then rec["hours"] else Str("")
  }

  /** The eateries of `order` (the key order of the attributes) that are
      graph nodes and open at `now`, in that order. */
  function OpenEateries(attrs: Attributes, order: seq<EateryId>, g: Graph, now: OpenHours.TimeOfDay)
    : (es: seq<EateryId>)
    ensures forall e :: e in es <==>
      e in order && e in attrs && e in g.nodes && OpenHours.IsOpen(HoursOf(attrs[e]), now)
    ensures |es| <= |order|
  {
    if order == [] then []
    else
      var e := order[0];
      var rest := OpenEateries(attrs, order[1..], g, now);
      if Admitted(attrs, g, now, e) then [e] + rest else rest
  }

  /** Eatery `e` has a record, is a node of the graph and is open at `now`. */
  predicate Admitted(attrs: Attributes, g: Graph, now: OpenHours.TimeOfDay, e: EateryId)
  {
    e in attrs && e in g.nodes && OpenHours.IsOpen(HoursOf(attrs[e]), now)
  }

  /** The positions in `order` of the admitted eateries, ascending: an
      independent description of which entries `OpenEateries` keeps. */
  function OpenIndices(attrs: Attributes, order: seq<EateryId>, g: Graph, now: OpenHours.TimeOfDay)
    : (idx: seq<int>)
    ensures forall k :: 0 <= k < |idx| ==> 0 <= idx[k] < |order| && Admitted(attrs, g, now, order[idx[k]])
    ensures forall k, l :: 0 <= k < l < |idx| ==> idx[k] < idx[l]
    ensures forall i :: 0 <= i < |order| && Admitted(attrs, g, now, order[i]) ==> i in idx
  {
    if order == [] then []
    else
      var init := OpenIndices(attrs, order[..|order| - 1], g, now);
      if Admitted(attrs, g, now, order[|order| - 1]) then init + [|order| - 1] else init
  }

  /** Appending an eatery to `order` appends it to the open eateries exactly
      when it is admitted. */
  lemma {:induction false} OpenEateriesSnoc(attrs: Attributes, order: seq<EateryId>, e: EateryId, g: Graph,
                                           now: OpenHours.TimeOfDay)
    ensures OpenEateries(attrs, order + [e], g, now)
         == OpenEateries(attrs, order, g, now) + (if Admitted(attrs, g, now, e) then [e] else [])
  {
    if order != [] {
      assert (order + [e])[1..] == order[1..] + [e];
      OpenEateriesSnoc(attrs, order[1..], e, g, now);
    }
  }

  /** `OpenEateries` keeps the admitted entries of `order` and nothing else,
      in their original order. */
  lemma {:induction false} OpenEateriesKeepOrder(attrs: Attributes, order: seq<EateryId>, g: Graph,
                                                 now: OpenHours.TimeOfDay)
    ensures var es := OpenEateries(attrs, order, g, now);
      var idx := OpenIndices(attrs, order, g, now);
      |es| == |idx| && forall k :: 0 <= k < |es| ==> es[k] == order[idx[k]]
  {
    if order != [] {
      var init, x := order[..|order| - 1], order[|order| - 1];
      assert order == init + [x];
      OpenEateriesSnoc(attrs, init, x, g, now);
      OpenEateriesKeepOrder(attrs, init, g, now);
      ExtendIndexed(init, x, OpenEateries(attrs, init, g, now), OpenIndices(attrs, init, g, now),
                    Admitted(attrs, g, now, x));
    }
  }

  /** Indexing a sequence by positions survives appending an element, and
      its position when the element is kept. */
  lemma ExtendIndexed(init: seq<EateryId>, x: EateryId, es: seq<EateryId>, idx: seq<int>, keep: bool)
    requires |es| == |idx| && forall k :: 0 <= k < |es| ==> 0 <= idx[k] < |init| && es[k] == init[idx[k]]
    ensures var es', idx' := es + (if keep then [x] else []), idx + (if keep then [|init|] else []);
      |es'| == |idx'| && forall k :: 0 <= k < |es'| ==> 0 <= idx'[k] < |init + [x]| && es'[k] == (init + [x])[idx'[k]]
  {
  }

  /** The value of factor `f` for eatery `e`: the distance from the start, or
      the attribute when the record has it. */
  function FactorValue(attrs: Attributes, g: Graph, start: NodeId, dist: (Coord, Coord) -> real,
                       f: string, e: EateryId): Option<real>
    requires e in attrs && e in g.nodes && start in g.nodes
  {
    if f == "distance" then Some(dist(g.nodes[start], g.nodes[e]))
    else if f in attrs[e] then Numeric(attrs[e][f])
    else None
  }

  /** The record holds factor `f` as a string. Python's `min` and `max`
      order strings, but `normalize_value` only succeeds on them when the
      range is empty, where it answers 0.5 before subtracting. */
  predicate StrValued(attrs: Attributes, f: string, e: EateryId)
    requires e in attrs
  {
    f != "distance" && f in attrs[e] && attrs[e][f].Str?
  }

  /** `metrics[f]` for an attribute factor: the values the eateries `es`
      record for `f`, `None` included, in order. */
  function RawValues(attrs: Attributes, f: string, es: seq<EateryId>): (vs: seq<Value>)
    requires forall i :: 0 <= i < |es| ==> es[i] in attrs
    ensures |vs| <= |es|
  {
    if es == [] then []
    else
      assert forall i :: 1 <= i < |es| ==> es[1..][i - 1] == es[i];
      (if f in attrs[es[0]] then [attrs[es[0]][f]] else []) + RawValues(attrs, f, es[1..])
  }

  /** Python can neither order nor subtract `x` and `y` as `compute_scores`
      needs: they are not both numbers, and not one and the same string. */
  predicate Clash(x: Value, y: Value)
  {
    !((Numeric(x).Some? && Numeric(y).Some?) || (x.Str? && x == y))
  }

  /** Two of the collected values clash, so `min`, `max` or the subtraction
      in `normalize_value` raises `TypeError`. */
  ghost predicate FactorRaises(vs: seq<Value>)
  {
    exists i, j :: 0 <= i < |vs| && 0 <= j < |vs| && i != j && Clash(vs[i], vs[j])
  }

  /** `compute_scores` raises `TypeError` on some weighted attribute factor. */
  ghost predicate ScoringRaises(attrs: Attributes, es: seq<EateryId>, w: Weights)
    requires forall i :: 0 <= i < |es| ==> es[i] in attrs
  {
    exists j :: 0 <= j < |w| && w[j].0 != "distance" && FactorRaises(RawValues(attrs, w[j].0, es))
  }

  predicate AllNumbers(vs: seq<Value>)
  {
    forall i :: 0 <= i < |vs| ==> Numeric(vs[i]).Some?
  }

  /** The values can be normalised: at most one of them, all numbers, or all
      the same string. */
  predicate Normalisable(vs: seq<Value>)
  {
    |vs| < 2 || AllNumbers(vs) || (vs[0].Str? && forall i :: 0 <= i < |vs| ==> vs[i] == vs[0])
  }

  /** The collected values can be normalised exactly when no two of them
      clash. */
  lemma NormalisableIff(vs: seq<Value>)
    ensures Normalisable(vs) <==> !FactorRaises(vs)
  {
    if Normalisable(vs) {
      forall i, j | 0 <= i < |vs| && 0 <= j < |vs| && i != j ensures !Clash(vs[i], vs[j]) {
      }
    } else {
      if !vs[0].Str? && Numeric(vs[0]).None? {
        assert Clash(vs[0], vs[1]);
      } else if vs[0].Str? {
        var k :| 0 <= k < |vs| && vs[k] != vs[0];
        assert Clash(vs[0], vs[k]);
      } else {
        var k :| 0 <= k < |vs| && Numeric(vs[k]).None?;
        assert Clash(vs[0], vs[k]);
      }
    }
  }

  /** The first weighted attribute factor whose values cannot be normalised. */
  function FirstClash(attrs: Attributes, es: seq<EateryId>, w: Weights): (r: Option<string>)
    requires forall i :: 0 <= i < |es| ==> es[i] in attrs
    ensures r.Some? <==> ScoringRaises(attrs, es, w)
    ensures r.Some? ==> r.value != "distance" && !Normalisable(RawValues(attrs, r.value, es))
    decreases |w|
  {
    if w == [] then None
    else if w[0].0 != "distance" && !Normalisable(RawValues(attrs, w[0].0, es)) then
      NormalisableIff(RawValues(attrs, w[0].0, es));
      Some(w[0].0)
    else
      var r := FirstClash(attrs, es, w[1..]);
      ClashShift(attrs, es, w, r.Some?);
      r
  }

  lemma ClashShift(attrs: Attributes, es: seq<EateryId>, w: Weights, later: bool)
    requires forall i :: 0 <= i < |es| ==> es[i] in attrs
    requires w != [] && (w[0].0 == "distance" || Normalisable(RawValues(attrs, w[0].0, es)))
    requires later <==> ScoringRaises(attrs, es, w[1..])
    ensures later <==> ScoringRaises(attrs, es, w)
  {
    NormalisableIff(RawValues(attrs, w[0].0, es));
    if later {
      var j :| 0 <= j < |w[1..]| && w[1..][j].0 != "distance" && FactorRaises(RawValues(attrs, w[1..][j].0, es));
      assert w[j + 1] == w[1..][j];
    }
    if ScoringRaises(attrs, es, w) {
      var j :| 0 <= j < |w| && w[j].0 != "distance" && FactorRaises(RawValues(attrs, w[j].0, es));
      assert j > 0 && w[1..][j - 1] == w[j];
    }
  }

  /** The values of factor `f` over the eateries `es` that have one. */
  function Collected(attrs: Attributes, g: Graph, start: NodeId, dist: (Coord, Coord) -> real,
                     f: string, es: seq<EateryId>): (vs: seq<real>)
    requires forall i :: 0 <= i < |es| ==> es[i] in attrs && es[i] in g.nodes
    requires start in g.nodes
    ensures forall i :: 0 <= i < |es| && FactorValue(attrs, g, start, dist, f, es[i]).Some? ==>
      FactorValue(attrs, g, start, dist, f, es[i]).value in vs
  {
    if es == [] then []
    else
      var rest := Collected(attrs, g, start, dist, f, es[1..]);
      assert forall i :: 1 <= i < |es| ==> es[1..][i - 1] == es[i];
      match FactorValue(attrs, g, start, dist, f, es[0])
      case Some(v) => [v] + rest
      case None => rest
  }

  function MinOf(vs: seq<real>): (m: real)
    requires |vs| > 0
    ensures forall i :: 0 <= i < |vs| ==> m <= vs[i]
  {
    if |vs| == 1 then vs[0]
    else
      var m := MinOf(vs[1..]);
      assert forall i :: 1 <= i < |vs| ==> vs[1..][i - 1] == vs[i];
      if vs[0] < m then vs[0] else m
  }

  function MaxOf(vs: seq<real>): (m: real)
    requires |vs| > 0
    ensures forall i :: 0 <= i < |vs| ==> vs[i] <= m
  {
    if |vs| == 1 then vs[0]
    else
      var m := MaxOf(vs[1..]);
      assert forall i :: 1 <= i < |vs| ==> vs[1..][i - 1] == vs[i];
      if vs[0] > m then vs[0] else m
  }

  /** The contribution of factor `f` with weight `wt` to the score of `e`
      when `compute_scores` does not raise: nothing when `e` lacks the
      factor or records `None`, half the weight for a string (normalised over
      an empty range), else the weight times the value normalised over all
      open eateries. */
  function FactorScore(attrs: Attributes, g: Graph, start: NodeId, dist: (Coord, Coord) -> real,
                       es: seq<EateryId>, f: string, wt: real, e: EateryId): real
    requires forall i :: 0 <= i < |es| ==> es[i] in attrs && es[i] in g.nodes
    requires e in attrs && e in g.nodes && start in g.nodes
  {
    match FactorValue(attrs, g, start, dist, f, e)
    case None => if StrValued(attrs, f, e) then wt * 0.5 else 0.0
    case Some(v) => Weighted(wt, v, Collected(attrs, g, start, dist, f, es), f in CostFactors)
  }

  /** `wt` times `v` normalised over the range of `vs`; nothing when `vs` is
      empty. */
  function Weighted(wt: real, v: real, vs: seq<real>, invert: bool): real
  {
    if |vs| == 0 then 0.0 else wt * NormalizeValue(v, MinOf(vs), MaxOf(vs), invert)
  }

  /** The weighted sum over all factors of `w`. */
  function Score(attrs: Attributes, g: Graph, start: NodeId, dist: (Coord, Coord) -> real,
                 es: seq<EateryId>, w: Weights, e: EateryId): real
    requires forall i :: 0 <= i < |es| ==> es[i] in attrs && es[i] in g.nodes
    requires e in attrs && e in g.nodes && start in g.nodes
  {
    if w == [] then 0.0
    else FactorScore(attrs, g, start, dist, es, w[0].0, w[0].1, e) + Score(attrs, g, start, dist, es, w[1..], e)
  }

  /** `custom_weights or DEFAULT_WEIGHTS`. */
  function EffectiveWeights(w: Weights): Weights
  {
    if w == [] then DefaultWeights else w
  }

  /** The scores in key order, or the `TypeError` Python raises on values it
      cannot order or subtract. */
  datatype ScoreResult = Computed(scores: seq<(EateryId, real)>) | Raised

  /** `compute_scores(attributes, graph, start_node, custom_weights)` at time
      `now` with the distance function `dist`, before rounding to four
      decimals: one score per open eatery that is a graph node, in key
      order. The start's coordinates are only read when there is such an
      eatery. */
  function ComputeScores(attrs: Attributes, order: seq<EateryId>, g: Graph, start: NodeId, weights: Weights,
                         now: OpenHours.TimeOfDay, dist: (Coord, Coord) -> real): (r: ScoreResult)
    requires OpenEateries(attrs, order, g, now) != [] ==> start in g.nodes
    ensures r.Raised? <==> ScoringRaises(attrs, OpenEateries(attrs, order, g, now), EffectiveWeights(weights))
    ensures r.Computed? ==> |r.scores| == |OpenEateries(attrs, order, g, now)|
    ensures r.Computed? ==> forall i :: 0 <= i < |r.scores| ==> r.scores[i].0 == OpenEateries(attrs, order, g, now)[i]
    ensures r.Computed? ==> forall i :: 0 <= i < |r.scores| ==>
      r.scores[i].0 in attrs && r.scores[i].0 in g.nodes && start in g.nodes
      && r.scores[i].1 == Score(attrs, g, start, dist, OpenEateries(attrs, order, g, now), EffectiveWeights(weights),
                                r.scores[i].0)
    ensures r.Computed? && NonNegative(EffectiveWeights(weights)) ==>
      forall i :: 0 <= i < |r.scores| ==> 0.0 <= r.scores[i].1 <= WeightSum(EffectiveWeights(weights))
  {
    var es := OpenEateries(attrs, order, g, now);
    var w := EffectiveWeights(weights);
    if es == [] then Computed([])
    else if FirstClash(attrs, es, w).Some? then Raised
    else Computed(ScoreAll(attrs, g, start, dist, es, w))
  }

  /** The scores of the eateries `es`, in order. */
  function ScoreAll(attrs: Attributes, g: Graph, start: NodeId, dist: (Coord, Coord) -> real,
                    es: seq<EateryId>, w: Weights): (r: seq<(EateryId, real)>)
    requires forall i :: 0 <= i < |es| ==> es[i] in attrs && es[i] in g.nodes
    requires start in g.nodes
    ensures |r| == |es| && forall i :: 0 <= i < |r| ==> r[i].0 == es[i]
    ensures NonNegative(w) ==> forall i :: 0 <= i < |r| ==> 0.0 <= r[i].1 <= WeightSum(w)
  {
    var r := seq(|es|, i requires 0 <= i < |es| => (es[i], Score(attrs, g, start, dist, es, w, es[i])));
    assert NonNegative(w) ==> forall i :: 0 <= i < |r| ==> 0.0 <= r[i].1 <= WeightSum(w) by {
      if NonNegative(w) {
        forall i | 0 <= i < |r| ensures 0.0 <= r[i].1 <= WeightSum(w) {
          ScoreBounds(attrs, g, start, dist, es, w, es[i]);
        }
      }
    }
    r
  }

  lemma FactorScoreBounds(attrs: Attributes, g: Graph, start: NodeId, dist: (Coord, Coord) -> real,
                          es: seq<EateryId>, f: string, wt: real, e: EateryId)
    requires forall i :: 0 <= i < |es| ==> es[i] in attrs && es[i] in g.nodes
    requires e in attrs && e in g.nodes && start in g.nodes && wt >= 0.0
    ensures 0.0 <= FactorScore(attrs, g, start, dist, es, f, wt, e) <= wt
  {
    match FactorValue(attrs, g, start, dist, f, e)
    case None =>
      if StrValued(attrs, f, e) {
        ScaleUnit(wt, 0.5);
      }
    case Some(v) =>
      WeightedBounds(wt, v, Collected(attrs, g, start, dist, f, es), f in CostFactors);
  }

  lemma WeightedBounds(wt: real, v: real, vs: seq<real>, invert: bool)
    requires wt >= 0.0
    ensures 0.0 <= Weighted(wt, v, vs, invert) <= wt
  {
    if |vs| > 0 {
      ScaleUnit(wt, NormalizeValue(v, MinOf(vs), MaxOf(vs), invert));
    }
  }

  /** With non-negative weights every score lies between 0 and the weight sum. */
  lemma {:induction false} ScoreBounds(attrs: Attributes, g: Graph, start: NodeId, dist: (Coord, Coord) -> real,
                                       es: seq<EateryId>, w: Weights, e: EateryId)
    requires forall i :: 0 <= i < |es| ==> es[i] in attrs && es[i] in g.nodes
    requires e in attrs && e in g.nodes && start in g.nodes && NonNegative(w)
    ensures 0.0 <= Score(attrs, g, start, dist, es, w, e) <= WeightSum(w)
    decreases |w|
  {
    if w != [] {
      FactorScoreBounds(attrs, g, start, dist, es, w[0].0, w[0].1, e);
      ScoreBounds(attrs, g, start, dist, es, w[1..], e);
    }
  }

  /** Eatery `a` is at least as good as `b` on factor `f`: `b` has neither a
      number nor a string for it, both record strings, or both have numbers
      and `a`'s is no worse (no larger for a cost factor, no smaller
      otherwise). */
  predicate NoWorse(attrs: Attributes, g: Graph, start: NodeId, dist: (Coord, Coord) -> real,
                    f: string, a: EateryId, b: EateryId)
    requires a in attrs && a in g.nodes && b in attrs && b in g.nodes && start in g.nodes
  {
    var va, vb := FactorValue(attrs, g, start, dist, f, a), FactorValue(attrs, g, start, dist, f, b);
    || (vb.None? && !StrValued(attrs, f, b))
    || (StrValued(attrs, f, a) && StrValued(attrs, f, b))
    || (va.Some? && vb.Some? && (if f in CostFactors then va.value <= vb.value else va.value >= vb.value))
  }

  lemma FactorDominance(attrs: Attributes, g: Graph, start: NodeId, dist: (Coord, Coord) -> real,
                        es: seq<EateryId>, f: string, wt: real, a: EateryId, b: EateryId)
    requires forall i :: 0 <= i < |es| ==> es[i] in attrs && es[i] in g.nodes
    requires a in attrs && a in g.nodes && b in attrs && b in g.nodes && start in g.nodes && wt >= 0.0
    requires NoWorse(attrs, g, start, dist, f, a, b)
    ensures FactorScore(attrs, g, start, dist, es, f, wt, a) >= FactorScore(attrs, g, start, dist, es, f, wt, b)
  {
    var va, vb := FactorValue(attrs, g, start, dist, f, a), FactorValue(attrs, g, start, dist, f, b);
    if va.Some? && vb.Some? {
      WeightedMonotone(wt, va.value, vb.value, Collected(attrs, g, start, dist, f, es), f in CostFactors);
    } else if vb.None? && !StrValued(attrs, f, b) {
      FactorScoreBounds(attrs, g, start, dist, es, f, wt, a);
    }
  }

  /** A value no worse than another gets no smaller weighted score. */
  lemma WeightedMonotone(wt: real, va: real, vb: real, vs: seq<real>, invert: bool)
    requires wt >= 0.0
    requires if invert then va <= vb else va >= vb
    ensures Weighted(wt, vb, vs, invert) <= Weighted(wt, va, vs, invert)
  {
    if |vs| > 0 {
      var lo, hi := MinOf(vs), MaxOf(vs);
      var na, nb := NormalizeValue(va, lo, hi, invert), NormalizeValue(vb, lo, hi, invert);
      NormalizedNoWorse(va, vb, lo, hi, invert);
      ScaleMonotone(wt, nb, na);
      assert Weighted(wt, vb, vs, invert) == wt * nb && Weighted(wt, va, vs, invert) == wt * na;
    }
  }

  lemma NormalizedNoWorse(va: real, vb: real, lo: real, hi: real, inv: bool)
    requires if inv then va <= vb else va >= vb
    ensures NormalizeValue(vb, lo, hi, inv) <= NormalizeValue(va, lo, hi, inv)
  {
    if inv {
      NormalizeMonotone(va, vb, lo, hi);
    } else {
      NormalizeMonotone(vb, va, lo, hi);
    }
  }

  /** Dominance: with non-negative weights, an eatery that is no worse than
      another on every weighted factor scores at least as high. */
  lemma {:induction false} ScoreDominance(attrs: Attributes, g: Graph, start: NodeId, dist: (Coord, Coord) -> real,
                                          es: seq<EateryId>, w: Weights, a: EateryId, b: EateryId)
    requires forall i :: 0 <= i < |es| ==> es[i] in attrs && es[i] in g.nodes
    requires a in attrs && a in g.nodes && b in attrs && b in g.nodes && start in g.nodes && NonNegative(w)
    requires forall j :: 0 <= j < |w| ==> NoWorse(attrs, g, start, dist, w[j].0, a, b)
    ensures Score(attrs, g, start, dist, es, w, a) >= Score(attrs, g, start, dist, es, w, b)
    decreases |w|
  {
    if w != [] {
      FactorDominance(attrs, g, start, dist, es, w[0].0, w[0].1, a, b);
      assert forall j :: 1 <= j < |w| ==> w[1..][j - 1] == w[j];
      ScoreDominance(attrs, g, start, dist, es, w[1..], a, b);
    }
  }

  /** A lone eatery whose rating is the string "4.5" scores half the rating
      weight: with one collected value the range is empty and normalisation
      answers 0.5 without subtracting. */
  lemma StringRatingScoresHalf(now: OpenHours.TimeOfDay, dist: (Coord, Coord) -> real)
    ensures ComputeScores(map["e" := map["rating" := Str("4.5")]], ["e"], Graph(map["e" := Coord(0.0, 0.0)], map[]),
                          "e", [("rating", 1.0)], now, dist) == Computed([("e", 0.5)])
  {
    var attrs := map["e" := map["rating" := Str("4.5")]];
    var g := Graph(map["e" := Coord(0.0, 0.0)], map[]);
    assert OpenEateries(attrs, ["e"], g, now) == ["e"];
    LoneStringNoClash(attrs);
    LoneStringScore(attrs, g, dist);
  }

  /** One string value cannot clash with anything. */
  lemma LoneStringNoClash(attrs: Attributes)
    requires attrs == map["e" := map["rating" := Str("4.5")]]
    ensures FirstClash(attrs, ["e"], [("rating", 1.0)]).None?
  {
    assert RawValues(attrs, "rating", ["e"]) == [Str("4.5")];
  }

  /** The score of the lone string-rated eatery. */
  lemma LoneStringScore(attrs: Attributes, g: Graph, dist: (Coord, Coord) -> real)
    requires attrs == map["e" := map["rating" := Str("4.5")]] && g == Graph(map["e" := Coord(0.0, 0.0)], map[])
    ensures ScoreAll(attrs, g, "e", dist, ["e"], [("rating", 1.0)]) == [("e", 0.5)]
  {
    var w := [("rating", 1.0)];
    assert FactorValue(attrs, g, "e", dist, "rating", "e").None? && StrValued(attrs, "rating", "e");
    assert Score(attrs, g, "e", dist, ["e"], w[1..], "e") == 0.0;
    assert Score(attrs, g, "e", dist, ["e"], w, "e") == 0.5;
  }

  /** A string rating next to a numeric one makes `compute_scores` raise:
      `min` cannot order the two. */
  lemma MixedRatingsRaise(now: OpenHours.TimeOfDay, dist: (Coord, Coord) -> real)
    ensures ComputeScores(map["a" := map["rating" := Str("4.5")], "b" := map["rating" := Int(4)]], ["a", "b"],
                          Graph(map["a" := Coord(0.0, 0.0), "b" := Coord(0.0, 0.0)], map[]),
                          "a", [("rating", 1.0)], now, dist) == Raised
  {
    var attrs := map["a" := map["rating" := Str("4.5")], "b" := map["rating" := Int(4)]];
    assert OpenEateries(attrs, ["a", "b"], Graph(map["a" := Coord(0.0, 0.0), "b" := Coord(0.0, 0.0)], map[]), now)
        == ["a", "b"];
    MixedRatingsClash(attrs);
  }

  /** The two ratings clash. */
  lemma MixedRatingsClash(attrs: Attributes)
    requires attrs == map["a" := map["rating" := Str("4.5")], "b" := map["rating" := Int(4)]]
    ensures ScoringRaises(attrs, ["a", "b"], [("rating", 1.0)])
  {
    var es: seq<EateryId> := ["a", "b"];
    assert es[1..] == ["b"];
    assert RawValues(attrs, "rating", ["b"]) == [Int(4)];
    var vs := RawValues(attrs, "rating", es);
    assert vs == [Str("4.5"), Int(4)];
    assert Clash(vs[0], vs[1]);
    assert FactorRaises(vs);
    var w := [("rating", 1.0)];
    assert w[0].0 == "rating";
  }
}
