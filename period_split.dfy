/** The before/after comparison script: engagement records split at the
    September 2024 cutoff, with the total and the neutral-narrative ("N-3")
    engagement accumulated per period, and the shares derived from them. */
module PeriodSplit {
  import opened Wrappers

  /** A record of the monthly engagement file. */
  datatype Record = Record(year: int, month: int, narrative: string, engagement: int)

  datatype Period = Before | After

  /** The two counters kept per period. */
  datatype Counters = Counters(n3: int, all: int)

  const CutoffYear: int := 2024
  const CutoffMonth: int := 9

  /** A record belongs to the earlier period exactly when its month comes
      strictly before the cutoff month; the cutoff month itself is later. */
  function PeriodOf(r: Record): (p: Period)
    ensures p == Before <==> r.year < CutoffYear || (r.year == CutoffYear && r.month < CutoffMonth)
  {
    if r.year < CutoffYear || (r.year == CutoffYear && r.month < CutoffMonth) then Before else After
  }

  /** A record earlier than one in the earlier period is also in it. */
  lemma BeforeIsEarlier(a: Record, b: Record)
    requires PeriodOf(b) == Before
    requires a.year < b.year || (a.year == b.year && a.month <= b.month)
    ensures PeriodOf(a) == Before
  {
  }

  /** The engagement of the records in period `p`. */
  function SumAll(data: seq<Record>, p: Period): int {
    if data == [] then 0
    else
      var last := data[|data| - 1];
      SumAll(data[..|data| - 1], p) + (if PeriodOf(last) == p then last.engagement else 0)
  }

  /** The engagement of the "N-3" records in period `p`. */
  function SumN3(data: seq<Record>, p: Period): int {
    if data == [] then 0
    else
      var last := data[|data| - 1];
      SumN3(data[..|data| - 1], p) + (if PeriodOf(last) == p && last.narrative == "N-3" then last.engagement else 0)
  }

  /** The engagement of all records. */
  function TotalEngagement(data: seq<Record>): int {
    if data == [] then 0 else TotalEngagement(data[..|data| - 1]) + data[|data| - 1].engagement
  }

  /** The accumulation loop: both periods start at zero and each record adds
      its engagement to its own period's total, and to that period's N-3
      counter when its narrative is "N-3". */
  method Accumulate(data: seq<Record>) returns (totals: map<Period, Counters>)
    ensures totals.Keys == {Before, After}
    ensures forall p :: p in totals ==> totals[p] == Counters(SumN3(data, p), SumAll(data, p))
  {
    totals := map[Before := Counters(0, 0), After := Counters(0, 0)];
    for i := 0 to |data|
      invariant totals.Keys == {Before, After}
      invariant forall p :: p in totals ==> totals[p] == Counters(SumN3(data[..i], p), SumAll(data[..i], p))
    {
      var record := data[i];
      var period := PeriodOf(record);
      assert data[..i + 1][..i] == data[..i] && data[..i + 1][i] == record;
      var c := totals[period];
      c := c.(all := c.all + record.engagement);
      if record.narrative == "N-3" {
        c := c.(n3 := c.n3 + record.engagement);
      }
      totals := totals[period := c];
    }
    assert data[..|data|] == data;
  }

  /** The two periods' totals add up to the engagement of all records. */
  lemma {:induction false} PeriodsPartitionTotal(data: seq<Record>)
    ensures SumAll(data, Before) + SumAll(data, After) == TotalEngagement(data)
  {
    if data != [] {
      PeriodsPartitionTotal(data[..|data| - 1]);
    }
  }

  /** With non-negative engagement the N-3 counter never exceeds its
      period's total. */
  lemma {:induction false} N3WithinTotal(data: seq<Record>, p: Period)
    requires forall r :: r in data ==> r.engagement >= 0
    ensures 0 <= SumN3(data, p) <= SumAll(data, p)
  {
    if data != [] {
      assert data[|data| - 1] in data;
      assert forall r :: r in data[..|data| - 1] ==> r in data;
      N3WithinTotal(data[..|data| - 1], p);
    }
  }

  /** The derived figures: each period's N-3 share and the relative change
      of the share in percent. */
  datatype Shares = Shares(before: real, after: real, percentDiff: real)

  /** The share computation. It fails (the script stops with a division by
      zero) when a period has no engagement, or when the earlier period has
      no N-3 engagement and so a zero share. */
  function ComputeShares(totals: map<Period, Counters>): (r: Option<Shares>)
    requires Before in totals && After in totals
    ensures r.Some? <==> totals[Before].all != 0 && totals[After].all != 0 && totals[Before].n3 != 0
    ensures r.Some? ==>
      r.value.before * totals[Before].all as real == totals[Before].n3 as real &&
      r.value.after * totals[After].all as real == totals[After].n3 as real &&
      r.value.percentDiff * r.value.before == (r.value.after - r.value.before) * 100.0
  {
    var b, a := totals[Before], totals[After];
    if b.all == 0 || a.all == 0 then None
    else
      var shareBefore := b.n3 as real / b.all as real;
      var shareAfter := a.n3 as real / a.all as real;
      if shareBefore == 0.0 then None
      else Some(Shares(shareBefore, shareAfter, (shareAfter - shareBefore) / shareBefore * 100.0))
  }
}
