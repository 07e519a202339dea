/**
  The NPV collection of `models/financial.py`: the per-activity NPV
  parameters, lookup by activity id, the computed normalisation range and
  the clamped linear normalisation of the absolute NPVs.  Money is `real`.
*/
module Financial {
  import opened Wrappers
  import opened Models

  /** One row of a yearly-rates list: `(revenue, cost, discounted value)`;
      a stored tuple may be shorter than three. */
  type RateTuple = seq<Option<real>>

  datatype NpvParameters = NpvParameters(
    years: int,
    discount: real,
    absoluteNpv: Option<real>,
    normalizedNpv: real,
    yearlyRates: seq<RateTuple>)

  datatype ActivityNpv = ActivityNpv(params: NpvParameters, enabled: bool, activity: Option<Activity>)

  datatype ActivityNpvCollection = ActivityNpvCollection(
    minimumValue: real,
    maximumValue: real,
    useComputed: bool,
    removeExisting: bool,
    mappings: seq<ActivityNpv>)

  /** Python truthiness of an optional number: present and non-zero. */
  predicate Truthy(v: Option<real>)
  {
    v.Some? && v.value != 0.0
  }

  /** `ActivityNpv.activity_id`: the activity's uuid, or "" when unset. */
  function ActivityId(m: ActivityNpv): (id: string)
    ensures m.activity.Some? ==> id == m.activity.value.uuid
    ensures m.activity.None? ==> id == ""
  {
    if m.activity.None? then "" else m.activity.value.uuid
  }

  // ---------------------------------------------------------------------
  // Lookup
  // ---------------------------------------------------------------------

  /** Index of the first mapping whose activity id is `id`. */
  function FirstMatch(ms: seq<ActivityNpv>, id: string): (r: Option<nat>)
    ensures r.Some? ==> r.value < |ms| && ActivityId(ms[r.value]) == id
    ensures r.Some? ==> forall j :: 0 <= j < r.value ==> ActivityId(ms[j]) != id
    ensures r.None? ==> forall j :: 0 <= j < |ms| ==> ActivityId(ms[j]) != id
  {
    if ms == [] then None
    else if ActivityId(ms[0]) == id then Some(0)
    else match FirstMatch(ms[1..], id)
      case None => None
      case Some(k) => Some(k + 1)
  }

  /** `ActivityNpvCollection.activity_npv`: the first mapping for the
      activity, or `None`. */
  function ActivityNpvLookup(c: ActivityNpvCollection, id: string): (r: Option<ActivityNpv>)
    ensures r.None? <==> forall j :: 0 <= j < |c.mappings| ==> ActivityId(c.mappings[j]) != id
    ensures r.Some? ==> exists i :: (0 <= i < |c.mappings| && c.mappings[i] == r.value
      && forall j :: 0 <= j < i ==> ActivityId(c.mappings[j]) != id)
    ensures r.Some? ==> ActivityId(r.value) == id
  {
    match FirstMatch(c.mappings, id)
    case None => None
    case Some(i) => Some(c.mappings[i])
  }

  /** Since an unassigned mapping reports "" as its id, looking up the empty
      identifier finds the first mapping without an activity. */
  lemma EmptyIdFindsUnassigned(c: ActivityNpvCollection, i: nat)
    requires i < |c.mappings| && c.mappings[i].activity.None?
    requires forall j :: 0 <= j < i ==> c.mappings[j].activity.Some? && c.mappings[j].activity.value.uuid != ""
    ensures ActivityNpvLookup(c, "") == Some(c.mappings[i])
  {
    var r := FirstMatch(c.mappings, "");
    assert ActivityId(c.mappings[i]) == "";
    assert forall j :: 0 <= j < i ==> ActivityId(c.mappings[j]) != "";
    assert r.Some? && r.value == i;
  }

  // ---------------------------------------------------------------------
  // Normalisation range
  // ---------------------------------------------------------------------

  /** Whether mapping `m` has a truthy absolute NPV equal to `v`. */
  predicate Carries(m: ActivityNpv, v: real)
  {
    Truthy(m.params.absoluteNpv) && m.params.absoluteNpv.value == v
  }

  /** The truthy absolute NPVs, in mapping order. */
  function ValidNpvValues(ms: seq<ActivityNpv>): (vs: seq<real>)
    ensures |vs| <= |ms|
    ensures forall i :: 0 <= i < |ms| && Truthy(ms[i].params.absoluteNpv) ==> ms[i].params.absoluteNpv.value in vs
    ensures forall v :: v in vs ==> exists i :: 0 <= i < |ms| && Carries(ms[i], v)
  {
    if ms == [] then []
    else
      var tail := ValidNpvValues(ms[1..]);
      assert forall i :: 1 <= i < |ms| ==> ms[i] == ms[1..][i - 1];
      if Truthy(ms[0].params.absoluteNpv) then [ms[0].params.absoluteNpv.value] + tail else tail
  }

  function SeqMin(xs: seq<real>): (m: real)
    requires |xs| > 0
    ensures m in xs && forall x :: x in xs ==> m <= x
  {
    if |xs| == 1 then xs[0]
    else
      var t := SeqMin(xs[1..]);
      assert forall x :: x in xs ==> x == xs[0] || x in xs[1..];
      if xs[0] <= t then xs[0] else t
  }

  function SeqMax(xs: seq<real>): (m: real)
    requires |xs| > 0
    ensures m in xs && forall x :: x in xs ==> x <= m
  {
    if |xs| == 1 then xs[0]
    else
      var t := SeqMax(xs[1..]);
      assert forall x :: x in xs ==> x == xs[0] || x in xs[1..];
      if xs[0] >= t then xs[0] else t
  }

  /** `update_computed_normalization_range`: whether the range was updated,
      and the collection afterwards. */
  function UpdateComputedNormalizationRange(c: ActivityNpvCollection): (r: (bool, ActivityNpvCollection))
    ensures r.0 <==> exists i :: 0 <= i < |c.mappings| && Truthy(c.mappings[i].params.absoluteNpv)
    ensures !r.0 ==> r.1 == c
    ensures r.0 ==> r.1 == c.(minimumValue := r.1.minimumValue, maximumValue := r.1.maximumValue)
    ensures r.0 ==> r.1.minimumValue <= r.1.maximumValue
    ensures r.0 ==> exists i :: 0 <= i < |c.mappings| && Carries(c.mappings[i], r.1.minimumValue)
    ensures r.0 ==> exists i :: 0 <= i < |c.mappings| && Carries(c.mappings[i], r.1.maximumValue)
    ensures r.0 ==> forall i :: 0 <= i < |c.mappings| && Truthy(c.mappings[i].params.absoluteNpv) ==>
      r.1.minimumValue <= c.mappings[i].params.absoluteNpv.value <= r.1.maximumValue
  {
    if |c.mappings| == 0 then (false, c)
    else
      var vs := ValidNpvValues(c.mappings);
      if |vs| == 0 then
        (false, c)
      else
        var lo, hi := SeqMin(vs), SeqMax(vs);
        (true, c.(minimumValue := lo, maximumValue := hi))
  }

  // ---------------------------------------------------------------------
  // Normalisation
  // ---------------------------------------------------------------------

  /** The clamped linear position of `v` in `[lo, hi]`. */
  function Normalized(v: real, lo: real, hi: real): (n: real)
    requires lo < hi
    ensures 0.0 <= n <= 1.0
    ensures v <= lo ==> n == 0.0
    ensures v >= hi ==> n == 1.0
  {
    if v <= lo then 0.0
    else if v >= hi then 1.0
    else
      QuotientInUnit(v - lo, hi - lo);
      (v - lo) / (hi - lo)
  }

  /** A positive part of a larger positive whole is a fraction strictly between 0 and 1. */
  lemma QuotientInUnit(a: real, b: real)
    requires 0.0 < a < b
    ensures 0.0 < a / b < 1.0
  {
    QuotientStrict(0.0, a, b);
    QuotientStrict(a, b, b);
    assert 0.0 / b == 0.0 && b / b == 1.0;
  }

  /** Dividing by a positive number keeps a strict order. */
  lemma QuotientStrict(x: real, y: real, d: real)
    requires 0.0 <= x < y && 0.0 < d
    ensures x / d < y / d
  {
    QuotientMonotone(x, y, d);
    assert (x / d) * d == x && (y / d) * d == y;
  }

  /** Dividing by a positive number keeps the order of non-negative numbers. */
  lemma QuotientMonotone(x: real, y: real, d: real)
    requires 0.0 <= x <= y && 0.0 < d
    ensures x / d <= y / d
  {
  }

  /** One mapping after normalisation: only a truthy absolute NPV is rewritten. */
  function NormalizeMapping(m: ActivityNpv, lo: real, hi: real): ActivityNpv
    requires lo < hi
  {
    if Truthy(m.params.absoluteNpv) then
      m.(params := m.params.(normalizedNpv := Normalized(m.params.absoluteNpv.value, lo, hi)))
    else m
  }

  /** `normalize_npvs`: whether normalisation ran, and the collection afterwards. */
  function NormalizeNpvs(c: ActivityNpvCollection): (r: (bool, ActivityNpvCollection))
    ensures r.0 <==> c.minimumValue < c.maximumValue
    ensures !r.0 ==> r.1 == c
    ensures r.1 == c.(mappings := r.1.mappings)
    ensures |r.1.mappings| == |c.mappings|
    ensures forall i :: 0 <= i < |c.mappings| ==>
      r.1.mappings[i] == c.mappings[i].(params := c.mappings[i].params.(normalizedNpv := r.1.mappings[i].params.normalizedNpv))
    ensures forall i :: 0 <= i < |c.mappings| && !Truthy(c.mappings[i].params.absoluteNpv) ==>
      r.1.mappings[i] == c.mappings[i]
    ensures r.0 ==> forall i :: 0 <= i < |c.mappings| && Truthy(c.mappings[i].params.absoluteNpv) ==>
      0.0 <= r.1.mappings[i].params.normalizedNpv <= 1.0
  {
    if c.minimumValue > c.maximumValue then (false, c)
    else if c.maximumValue - c.minimumValue == 0.0 then (false, c)
    else
      var ms := seq(|c.mappings|, i requires 0 <= i < |c.mappings| =>
        NormalizeMapping(c.mappings[i], c.minimumValue, c.maximumValue));
      (true, c.(mappings := ms))
  }

  /** A normalised value is at the linear position between the bounds, and
      exactly 0 or 1 outside them. */
  lemma NormalizedValueOfEntry(c: ActivityNpvCollection, i: nat)
    requires c.minimumValue < c.maximumValue
    requires i < |c.mappings| && Truthy(c.mappings[i].params.absoluteNpv)
    ensures var v := c.mappings[i].params.absoluteNpv.value;
      var n := NormalizeNpvs(c).1.mappings[i].params.normalizedNpv;
      && (v <= c.minimumValue ==> n == 0.0)
      && (v >= c.maximumValue ==> n == 1.0)
      && (c.minimumValue < v < c.maximumValue ==> n * (c.maximumValue - c.minimumValue) == v - c.minimumValue)
  {
  }

  /** Normalisation is monotone: a larger absolute NPV never receives a
      smaller normalised value. */
  lemma NormalizedMonotone(v: real, w: real, lo: real, hi: real)
    requires lo < hi && v <= w
    ensures Normalized(v, lo, hi) <= Normalized(w, lo, hi)
  {
    if lo < v && w < hi {
      QuotientMonotone(v - lo, w - lo, hi - lo);
    }
  }

  /** Normalising against a range freshly computed from the same mappings
      maps the smallest truthy NPV to 0 and the largest to 1, whenever they
      differ. */
  lemma ComputedRangeSpansZeroToOne(c: ActivityNpvCollection)
    requires UpdateComputedNormalizationRange(c).0
    ensures var u := UpdateComputedNormalizationRange(c).1;
      var n := NormalizeNpvs(u);
      u.minimumValue < u.maximumValue ==>
        && n.0
        && (exists i :: 0 <= i < |c.mappings| && Truthy(c.mappings[i].params.absoluteNpv) && n.1.mappings[i].params.normalizedNpv == 0.0)
        && (exists i :: 0 <= i < |c.mappings| && Truthy(c.mappings[i].params.absoluteNpv) && n.1.mappings[i].params.normalizedNpv == 1.0)
  {
    var u := UpdateComputedNormalizationRange(c).1;
    if u.minimumValue < u.maximumValue {
      var i :| 0 <= i < |c.mappings| && Carries(c.mappings[i], u.minimumValue);
      var j :| 0 <= j < |c.mappings| && Carries(c.mappings[j], u.maximumValue);
      assert u.mappings == c.mappings;
      assert NormalizeNpvs(u).1.mappings[i].params.normalizedNpv == 0.0;
      assert NormalizeNpvs(u).1.mappings[j].params.normalizedNpv == 1.0;
    }
  }
}
