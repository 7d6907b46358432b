/**
 * The round controller `bench` and the result table `time_res`/`idx`, run
 * sequentially: the workers' claims under `res_lock` come in the order given,
 * one outcome per worker.
 */
module Controller {
  import opened Config
  import opened Worker
  import opened Bits

  /** `time_res[]` and its index `idx`, both guarded by `res_lock`. */
  class ResultTable {
    const timeRes: array<int>
    var idx: int

    ghost predicate Valid()
      reads this
    {
      timeRes.Length == MaxThread && 0 <= idx <= MaxThread
    }

    /** The static initial state: every slot 0, `idx` 0. */
    constructor ()
      ensures Valid() && fresh(timeRes) && idx == 0
      ensures forall i :: 0 <= i < MaxThread ==> timeRes[i] == 0
    {
      timeRes := new int[MaxThread](_ => 0);
      idx := 0;
    }

    /** `time_res[idx++] += latency`. */
    method Record(latency: int)
      requires Valid() && idx < MaxThread
      modifies this, timeRes
      ensures Valid() && idx == old(idx) + 1
      ensures timeRes[..] == old(timeRes[..])[old(idx) := old(timeRes[idx]) + latency]
    {
      timeRes[idx] := timeRes[idx] + latency;
      idx := idx + 1;
    }
  }

  /** Every worker of the round completed its cycle. */
  predicate AllOk(outcomes: seq<Result<int>>)
  {
    forall k :: 0 <= k < |outcomes| ==> outcomes[k].Ok?
  }

  /** How a round ends: all workers done, or the run aborted. */
  datatype Status = Completed | Aborted(error: Failure)

  /** The round's status: aborted by its first failing worker, in the order the workers are taken. */
  function RoundStatus(outcomes: seq<Result<int>>): (s: Status)
    ensures s.Completed? <==> AllOk(outcomes)
  {
    if |outcomes| == 0 then Completed
    else if outcomes[0].Err? then Aborted(outcomes[0].error)
    else RoundStatus(outcomes[1..])
  }

  /** The round aborts with the failure of the first failing worker. */
  lemma {:induction false} RoundStatusFirst(outcomes: seq<Result<int>>, k: nat)
    requires k < |outcomes| && AllOk(outcomes[..k]) && outcomes[k].Err?
    ensures RoundStatus(outcomes) == Aborted(outcomes[k].error)
  {
    if k > 0 {
      assert outcomes[1..][..k - 1] == outcomes[..k][1..];
      RoundStatusFirst(outcomes[1..], k - 1);
    }
  }

  /**
   * One round: `ready = 0`, the `MAX_THREAD` arrivals at the rendezvous, then
   * each worker's claim of slot `idx` in the order of `outcomes`, then `idx = 0`.
   * `claims` lists the slot indices claimed; `signals` tells of each arrival
   * whether it broadcast.
   */
  method RunRound(table: ResultTable, barrier: Barrier, outcomes: seq<Result<int>>)
      returns (s: Status, ghost claims: seq<int>, ghost signals: seq<bool>)
    requires table.Valid() && table.idx == 0
    requires |outcomes| == MaxThread
    modifies table, table.timeRes, barrier
    ensures table.Valid()
    ensures s == RoundStatus(outcomes)
    ensures barrier.ready == MaxThread && barrier.Released()
    ensures |signals| == MaxThread && forall j :: 0 <= j < MaxThread ==> (signals[j] <==> j == MaxThread - 1)
    ensures s.Completed? ==> table.idx == 0
    ensures s.Completed? ==> claims == seq(MaxThread, i => i)
    ensures s.Completed? ==>
      forall i :: 0 <= i < MaxThread ==> table.timeRes[i] == old(table.timeRes[i]) + outcomes[i].value
  {
    barrier.ready := 0;
    signals := [];
    for w := 0 to MaxThread
      invariant barrier.ready == w && |signals| == w
      invariant forall j :: 0 <= j < w ==> (signals[j] <==> j == MaxThread - 1)
      invariant unchanged(table) && unchanged(table.timeRes)
    {
      var broadcast := barrier.Arrive();
      signals := signals + [broadcast];
    }
    claims := [];
    for k := 0 to MaxThread
      invariant table.Valid() && table.idx == k && claims == seq(k, i => i)
      invariant AllOk(outcomes[..k])
      invariant forall i :: 0 <= i < k ==> table.timeRes[i] == old(table.timeRes[i]) + outcomes[i].value
      invariant forall i :: k <= i < MaxThread ==> table.timeRes[i] == old(table.timeRes[i])
      invariant barrier.ready == MaxThread
    {
      if outcomes[k].Err? {
        RoundStatusFirst(outcomes, k);
        return Aborted(outcomes[k].error), claims, signals;
      }
      claims := claims + [table.idx];
      table.Record(outcomes[k].value);
      assert outcomes[..k + 1] == outcomes[..k] + [outcomes[k]];
    }
    assert outcomes[..MaxThread] == outcomes;
    table.idx := 0;
    s := Completed;
  }

  /** The latencies added to slot `i` over all rounds. */
  function SlotTotal(rounds: seq<seq<Result<int>>>, i: nat): int
    requires forall k :: 0 <= k < |rounds| ==> i < |rounds[k]| && rounds[k][i].Ok?
  {
    if |rounds| == 0 then 0 else SlotTotal(rounds[..|rounds| - 1], i) + rounds[|rounds| - 1][i].value
  }

  lemma SlotTotalSnoc(rounds: seq<seq<Result<int>>>, k: nat, i: nat)
    requires k < |rounds|
    requires forall j :: 0 <= j < |rounds| ==> i < |rounds[j]| && rounds[j][i].Ok?
    ensures SlotTotal(rounds[..k + 1], i) == SlotTotal(rounds[..k], i) + rounds[k][i].value
  {
    assert rounds[..k + 1][..k] == rounds[..k];
  }

  /** C's `long / int` division, which truncates toward zero. */
  function CDiv(a: int, n: int): (q: int)
    requires n > 0
    ensures a >= 0 ==> 0 <= q && q * n <= a < q * n + n
    ensures a < 0 ==> q <= 0 && q * n - n < a <= q * n
  {
    assert a == n * (a / n) + a % n && 0 <= a % n < n;
    assert -a == n * ((-a) / n) + (-a) % n && 0 <= (-a) % n < n;
    if a >= 0 then a / n else -((-a) / n)
  }

  /** Truncating division of a multiple of `n` by `n` is exact. */
  lemma CDivExact(m: int, n: int)
    requires n > 0
    ensures CDiv(n * m, n) == m
  {
    if m >= 0 {
      DivModUnique(n * m, n, m, 0);
    } else {
      DivModUnique(-(n * m), n, -m, 0);
    }
  }

  /** A slot whose latency is the same `latency` in each round totals `|rounds| * latency`. */
  lemma {:induction false} ConstantLatencyTotal(rounds: seq<seq<Result<int>>>, i: nat, latency: int)
    requires forall k :: 0 <= k < |rounds| ==> i < |rounds[k]| && rounds[k][i] == Ok(latency)
    ensures SlotTotal(rounds, i) == |rounds| * latency
  {
    var n := |rounds|;
    if n > 0 {
      ConstantLatencyTotal(rounds[..n - 1], i, latency);
      assert (n - 1) * latency + latency == n * latency;
    }
  }

  /** A slot whose latency is the same `latency` in each of the rounds averages to exactly `latency`. */
  lemma ConstantLatencyAverage(rounds: seq<seq<Result<int>>>, i: nat, latency: int)
    requires |rounds| > 0
    requires forall k :: 0 <= k < |rounds| ==> i < |rounds[k]| && rounds[k][i] == Ok(latency)
    ensures CDiv(SlotTotal(rounds, i), |rounds|) == latency
  {
    ConstantLatencyTotal(rounds, i, latency);
    CDivExact(latency, |rounds|);
  }

  /** One line `fprintf(bench_fd, "%d %ld\n", i, ...)` of the result file. */
  datatype Line = Line(slot: int, average: int)

  /**
   * `bench`: `BENCH_COUNT` rounds, each with `MAX_THREAD` worker outcomes, then
   * each slot divided in place by `BENCH_COUNT` and reported in index order.
   * Any failing worker aborts the run.
   */
  method Bench(table: ResultTable, barrier: Barrier, rounds: seq<seq<Result<int>>>)
      returns (r: Result<seq<Line>>)
    requires table.Valid() && table.idx == 0
    requires forall i :: 0 <= i < MaxThread ==> table.timeRes[i] == 0
    requires |rounds| == BenchCount && forall k :: 0 <= k < |rounds| ==> |rounds[k]| == MaxThread
    modifies table, table.timeRes, barrier
    ensures r.Ok? <==> forall k :: 0 <= k < |rounds| ==> AllOk(rounds[k])
    ensures r.Err? ==>
      exists k :: 0 <= k < |rounds| && RoundStatus(rounds[k]) == Aborted(r.error)
                  && forall j :: 0 <= j < k ==> AllOk(rounds[j])
    ensures r.Ok? ==> |r.value| == MaxThread
    ensures r.Ok? ==> forall i :: 0 <= i < MaxThread ==>
      r.value[i] == Line(i, CDiv(SlotTotal(rounds, i), BenchCount)) && table.timeRes[i] == r.value[i].average
  {
    for k := 0 to BenchCount
      invariant table.Valid() && table.idx == 0
      invariant forall j :: 0 <= j < k ==> AllOk(rounds[j])
      invariant forall i :: 0 <= i < MaxThread ==> table.timeRes[i] == SlotTotal(rounds[..k], i)
    {
      var s, claims, signals := RunRound(table, barrier, rounds[k]);
      if s.Aborted? {
        return Err(s.error);
      }
      forall i | 0 <= i < MaxThread
        ensures table.timeRes[i] == SlotTotal(rounds[..k + 1], i)
      {
        SlotTotalSnoc(rounds[..k + 1], k, i);
        assert rounds[..k + 1][..k] == rounds[..k];
      }
    }
    assert rounds[..BenchCount] == rounds;
    var lines: seq<Line> := [];
    for i := 0 to MaxThread
      invariant |lines| == i
      invariant forall j :: 0 <= j < i ==>
        lines[j] == Line(j, CDiv(SlotTotal(rounds, j), BenchCount)) && table.timeRes[j] == lines[j].average
      invariant forall j :: i <= j < MaxThread ==> table.timeRes[j] == SlotTotal(rounds, j)
    {
      table.timeRes[i] := CDiv(table.timeRes[i], BenchCount);
      lines := lines + [Line(i, table.timeRes[i])];
    }
    r := Ok(lines);
  }
}
