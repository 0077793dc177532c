/**
 * `getTypeStats`: for every experiment type, how many records it has, how many of
 * those are verified, and the verified share as a whole percentage.
 */
module ExperimentStats {
  import opened Js
  import opened Experiments

  datatype TypeStat = TypeStat(total: nat, verified: nat, percent: nat)

  /** The verified share of a type as a rounded percentage, computed on exact rationals, and
      0 for an empty type. The result is the whole number nearest to 100·v/t, a tie going up,
      and it stays within 0..100. */
  function RoundPercent(v: nat, t: nat): (r: nat)
    requires v <= t
    ensures t == 0 ==> r == 0
    ensures t > 0 ==> 2 * r * t - t <= 200 * v < 2 * r * t + t
    ensures r <= 100
    ensures v == t && t > 0 ==> r == 100
  {
    if t == 0 then 0 else RoundingBounds(v, t); (200 * v + t) / (2 * t)
  }

  lemma RoundingBounds(v: nat, t: nat)
    requires 0 < t && v <= t
    ensures var q := (200 * v + t) / (2 * t);
            2 * q * t - t <= 200 * v < 2 * q * t + t && 0 <= q <= 100 && (v == t ==> q == 100)
  {
    var d := 2 * t;
    var n := 200 * v + t;
    var q := n / d;
    var m := n % d;
    assert 2 * q * t - t <= 200 * v < 2 * q * t + t by {
      assert n == q * d + m && 0 <= m < d;
      assert q * d == 2 * q * t;
    }
    assert q <= 100 by {
      assert n == q * d + m && 0 <= m < d;
      assert n < 101 * d;
      if q > 100 {
        MulMonotone(101, q, d);
      }
    }
    assert v == t ==> q == 100 by {
      if v == t && q < 100 {
        MulMonotone(q, 99, d);
      }
    }
  }

  lemma MulMonotone(a: int, b: int, c: nat)
    requires a <= b
    ensures a * c <= b * c
  {
  }

  function VerifiedOfType(t: ExperimentType): Experiment -> bool
  {
    (e: Experiment) => e.kind == t && e.verified
  }

  /** How many records have type `t`. */
  function TotalOf(records: seq<Experiment>, t: ExperimentType): nat
  {
    |Filter(records, OfType(t))|
  }

  /** How many records have type `t` and are verified. */
  function VerifiedOf(records: seq<Experiment>, t: ExperimentType): nat
  {
    |Filter(records, VerifiedOfType(t))|
  }

  /** A type's verified records are among its records. */
  lemma VerifiedWithinTotal(records: seq<Experiment>, t: ExperimentType)
    ensures VerifiedOf(records, t) <= TotalOf(records, t)
  {
    FilterNarrow(records, VerifiedOfType(t), OfType(t));
  }

  function StatFor(records: seq<Experiment>, t: ExperimentType): (r: TypeStat)
    ensures r.total == TotalOf(records, t) && r.verified == VerifiedOf(records, t)
    ensures r.verified <= r.total
  {
    VerifiedWithinTotal(records, t);
    var total := TotalOf(records, t);
    var verified := VerifiedOf(records, t);
    TypeStat(total, verified, RoundPercent(verified, total))
  }

  /** The stats object: a key for every type, empty types included; within each entry the
      verified count never exceeds the total and the percentage is 0 for an empty type and
      otherwise the rounded verified share. */
  function TypeStats(st: Store): (r: map<ExperimentType, TypeStat>)
    ensures forall t: ExperimentType :: t in r
    ensures forall t :: t in r ==> r[t].verified <= r[t].total
    ensures forall t :: t in r ==> r[t].percent <= 100
    ensures forall t :: t in r && r[t].total == 0 ==> r[t].verified == 0 && r[t].percent == 0
    ensures forall t :: t in r ==> r[t].percent == RoundPercent(r[t].verified, r[t].total)
    ensures forall t :: t in r ==> r[t].total == TotalOf(st.records, t) && r[t].verified == VerifiedOf(st.records, t)
  {
    var r := map t | t in AllTypes :: StatFor(st.records, t);
    assert forall t: ExperimentType :: t in r by {
      forall t: ExperimentType ensures t in r {
        TypeNameRoundTrip(t);
      }
    }
    r
  }

  /** The six totals added up in the order of the list. */
  function SumTotals(records: seq<Experiment>): nat
  {
    TotalOf(records, SpaceDataStorage) + TotalOf(records, SpaceAgriculture)
    + TotalOf(records, AerospaceMedical) + TotalOf(records, EarthAtmosphere)
    + TotalOf(records, Printing3d) + TotalOf(records, RadiationTesting)
  }

  /** Every record has exactly one of the six types, so the totals add up to the store size. */
  lemma {:induction false} TotalsSumToSize(records: seq<Experiment>)
    ensures SumTotals(records) == |records|
    decreases |records|
  {
    if |records| > 0 {
      TotalsSumToSize(records[1..]);
      assert forall t :: TotalOf(records, t) == TotalOf(records[1..], t) + (if records[0].kind == t then 1 else 0);
    }
  }

  /** The stats as served add up to the store size. */
  lemma TypeStatsSumToSize(st: Store)
    ensures var s := TypeStats(st);
            s[SpaceDataStorage].total + s[SpaceAgriculture].total + s[AerospaceMedical].total
            + s[EarthAtmosphere].total + s[Printing3d].total + s[RadiationTesting].total == |st.records|
  {
    TotalsSumToSize(st.records);
  }

  /** Verifying an unverified record of type `t` raises `t`'s verified count by exactly one
      and leaves every total and every other type's verified count alone. */
  lemma VerifyBumpsStats(st: Store, idParam: string)
    requires Locate(st, idParam).Some?
    requires !st.records[Locate(st, idParam).value].verified
    ensures var k := Locate(st, idParam).value;
            var t0 := st.records[k].kind;
            var before := TypeStats(st);
            var after := TypeStats(Verify(st, idParam, Bool(true)).1);
            && after[t0].verified == before[t0].verified + 1
            && (forall t :: after[t].total == before[t].total)
            && (forall t :: t != t0 ==> after[t].verified == before[t].verified)
  {
    var k := Locate(st, idParam).value;
    var after := Verify(st, idParam, Bool(true)).1;
    var y := st.records[k].(verified := true);
    assert after.records == st.records[k := y];
    VerifyCounts(st.records, k);
    StatsFollowCounts(st, after, y.kind);
  }

  /** The stats of two stores differ as their counts do. */
  lemma StatsFollowCounts(st: Store, after: Store, t0: ExperimentType)
    requires forall t :: TotalOf(after.records, t) == TotalOf(st.records, t)
    requires VerifiedOf(after.records, t0) == VerifiedOf(st.records, t0) + 1
    requires forall t :: t != t0 ==> VerifiedOf(after.records, t) == VerifiedOf(st.records, t)
    ensures var before := TypeStats(st);
            var now := TypeStats(after);
            && now[t0].verified == before[t0].verified + 1
            && (forall t :: now[t].total == before[t].total)
            && (forall t :: t != t0 ==> now[t].verified == before[t].verified)
  {
    var before := TypeStats(st);
    var now := TypeStats(after);
    assert now[t0].verified == before[t0].verified + 1;
    forall t ensures now[t].total == before[t].total {
    }
    forall t | t != t0 ensures now[t].verified == before[t].verified {
    }
  }

  /** The counting half: turning record `k`'s flag on moves one record into its type's
      verified filter and moves nothing between totals. */
  lemma VerifyCounts(records: seq<Experiment>, k: nat)
    requires k < |records| && !records[k].verified
    ensures var y := records[k].(verified := true);
            forall t :: && TotalOf(records[k := y], t) == TotalOf(records, t)
                        && VerifiedOf(records[k := y], t) == VerifiedOf(records, t) + (if t == y.kind then 1 else 0)
  {
    var y := records[k].(verified := true);
    forall t: ExperimentType
      ensures TotalOf(records[k := y], t) == TotalOf(records, t)
      ensures VerifiedOf(records[k := y], t) == VerifiedOf(records, t) + (if t == y.kind then 1 else 0)
    {
      FilterUpdateCount(records, k, y, OfType(t));
      FilterUpdateCount(records, k, y, VerifiedOfType(t));
    }
  }

  /** The walk-through of a new record: after it is created, its type's total grows by one
      and its verified count does not; after it is verified, that count grows by one and the
      record appears in the verified view. */
  lemma CreateThenVerifyScenario(st: Store, req: CreateRequest, ipfsHash: string, now: int)
    requires Valid(st)
    requires Rejection(req).None?
    ensures var c := Create(st, req, None, ipfsHash, now);
            var e := c.0.value;
            var v := Verify(c.1, ToDecimalString(e.id), Bool(true));
            && TypeStats(c.1)[e.kind].total == TypeStats(st)[e.kind].total + 1
            && TypeStats(c.1)[e.kind].verified == TypeStats(st)[e.kind].verified
            && v.0 == Ok(e.(verified := true))
            && e.(verified := true) in VerifiedOnly(v.1)
            && TypeStats(v.1)[e.kind].verified == TypeStats(st)[e.kind].verified + 1
  {
    var c := Create(st, req, None, ipfsHash, now);
    var e := c.0.value;
    var t := e.kind;
    FilterAppend(st.records, [e], OfType(t));
    FilterAppend(st.records, [e], VerifiedOfType(t));
    assert Filter([e], OfType(t)) == [e];
    assert Filter([e], VerifiedOfType(t)) == [];
    CreatePreservesValid(st, req, None, ipfsHash, now);
    ParseIntDecimalRoundTrip(e.id);
    IdsAreUnique(c.1, |st.records|);
    assert Locate(c.1, ToDecimalString(e.id)) == Some(|st.records|);
    VerifyBumpsStats(c.1, ToDecimalString(e.id));
    VerifyShowsInVerifiedView(c.1, ToDecimalString(e.id));
  }
}
