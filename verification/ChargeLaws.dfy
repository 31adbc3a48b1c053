/**
 What the charges of a plan mean in time: memory held is the average of what is
 held, millisecond by millisecond, and operations charged for requests take the
 requests' time (crates/cost/src/usage.rs:155-208 and 266-325).
 */
module ChargeLaws {
  import opened ExecutionWalks
  import opened PlanCosting
  import opened RealBounds
  import opened Results

  // ------------------------------------------------------ memory in time

  /** How many executions, each holding its memory for `held` ms from its start, hold it in millisecond `t`. */
  function HeldAt(starts: seq<nat>, held: nat, t: nat): nat {
    if starts == [] then 0
    else
      HeldAt(starts[..|starts| - 1], held, t)
      + if starts[|starts| - 1] <= t < starts[|starts| - 1] + held then 1 else 0
  }

  /** The copies held, added over the first `ms` milliseconds. */
  function CopyMilliseconds(starts: seq<nat>, held: nat, ms: nat): nat {
    if ms == 0 then 0 else CopyMilliseconds(starts, held, ms - 1) + HeldAt(starts, held, ms - 1)
  }

  /** One more execution adds the milliseconds of its own that have passed. */
  lemma {:induction false} OneMoreCopy(starts: seq<nat>, start: nat, held: nat, ms: nat)
    ensures CopyMilliseconds(starts + [start], held, ms)
         == CopyMilliseconds(starts, held, ms) + (if ms <= start then 0 else if ms <= start + held then ms - start else held)
  {
    if ms > 0 {
      OneMoreCopy(starts, start, held, ms - 1);
      assert (starts + [start])[..|starts|] == starts;
    }
  }

  /** Executions that end within the time hold their copies for `held` milliseconds each. */
  lemma {:induction false} AllCopies(starts: seq<nat>, held: nat, ms: nat)
    requires forall j :: 0 <= j < |starts| ==> starts[j] + held <= ms
    ensures CopyMilliseconds(starts, held, ms) == |starts| * held
  {
    if starts == [] {
      NoCopies(held, ms);
    } else {
      var rest, last := starts[..|starts| - 1], starts[|starts| - 1];
      AllCopies(rest, held, ms);
      OneMoreCopy(rest, last, held, ms);
      assert rest + [last] == starts;
      assert |starts| * held == |rest| * held + held;
    }
  }

  lemma {:induction false} NoCopies(held: nat, ms: nat)
    ensures CopyMilliseconds([], held, ms) == 0
  {
    if ms > 0 { NoCopies(held, ms - 1); }
  }

  /** The bytes held on average over so many milliseconds. */
  function AverageBytes(bytes: nat, copyMs: nat, ms: nat): real
    requires ms > 0
  {
    bytes as real * copyMs as real / ms as real
  }

  /** What is charged for memory held `n` times for `held` ms in `seconds` seconds is the bytes held on average. */
  lemma HeldIsAverage(bytes: nat, starts: seq<nat>, held: nat, seconds: nat, msPerSecond: real)
    requires seconds > 0 && forall j :: 0 <= j < |starts| ==> starts[j] + held <= 1000 * seconds
    requires msPerSecond * seconds as real == (|starts| * held) as real
    ensures HeldFor(bytes, msPerSecond) == AverageBytes(bytes, CopyMilliseconds(starts, held, 1000 * seconds), 1000 * seconds)
  {
    AllCopies(starts, held, 1000 * seconds);
    HeldCopies(bytes, msPerSecond, |starts| * held, seconds);
  }

  lemma PerMillisecond(b: real, m: real, t: real, c: real)
    requires t > 0.0 && m * t == c
    ensures b * m / 1000.0 == b * c / (1000.0 * t)
  {
    var x := b * m / 1000.0;
    assert x * 1000.0 == b * m;
    Commute(b, m, t);
    assert (b * m) * t == b * c;
    assert x * (1000.0 * t) == (x * 1000.0) * t;
  }

  /** A state held by one execution at a time: its executions until the longest query reading it finishes. */
  lemma StateIsAverage(runs: Runs, m: Measured, starts: seq<nat>, held: nat, seconds: nat)
    requires m.held.Some? && !m.held.value.perConsumer && seconds > 0
    requires m.held.value.perSecond * seconds as real == |starts| as real && ReaderMs(runs, m.id) == held as real
    requires forall j :: 0 <= j < |starts| ==> starts[j] + held <= 1000 * seconds
    ensures ByteSeconds(runs, m)
         == AverageBytes(m.held.value.bytes, CopyMilliseconds(starts, held, 1000 * seconds), 1000 * seconds)
  {
    var r, h, t := m.held.value.perSecond, held as real, seconds as real;
    Commute(r, h, t);
    assert (r * h) * t == (r * t) * h by { assert r * (h * t) == h * (r * t); }
    assert (|starts| * held) as real == |starts| as real * h;
    hide HeldFor, ReaderMs;
    HeldIsAverage(m.held.value.bytes, starts, held, seconds, r * h);
  }

  /** What so much per second comes to. */
  function Over(perSecond: real, seconds: nat): real {
    perSecond * seconds as real
  }

  lemma OverAdds(x: real, y: real, seconds: nat)
    ensures Over(x + y, seconds) == Over(x, seconds) + Over(y, seconds)
    ensures Over(0.0, seconds) == 0.0
  {
  }

  /** A node computed for each consumer: `copies[k]` are the executions of consumer `k`, each for `holds[k]` ms. */
  ghost predicate AreCopies(runs: Runs, consumers: seq<Consumer>, copies: seq<seq<nat>>, holds: seq<nat>, seconds: nat) {
    && |copies| == |holds| == |consumers|
    && forall k :: 0 <= k < |consumers| ==>
         && Over(CopyMs(runs, consumers[k]), seconds) == (|copies[k]| * holds[k]) as real
         && forall j :: 0 <= j < |copies[k]| ==> copies[k][j] + holds[k] <= 1000 * seconds
  }

  function AllCopyMs(copies: seq<seq<nat>>, holds: seq<nat>, ms: nat, n: nat): nat
    requires n <= |copies| == |holds|
  {
    if n == 0 then 0 else AllCopyMs(copies, holds, ms, n - 1) + CopyMilliseconds(copies[n - 1], holds[n - 1], ms)
  }

  lemma {:induction false} CopiesAdd(runs: Runs, consumers: seq<Consumer>, copies: seq<seq<nat>>, holds: seq<nat>, seconds: nat,
                                     n: nat)
    requires AreCopies(runs, consumers, copies, holds, seconds) && n <= |consumers|
    ensures |copies| == |holds| == |consumers|
    ensures Over(CopiesMs(runs, consumers, n), seconds) == AllCopyMs(copies, holds, 1000 * seconds, n) as real
  {
    if n > 0 {
      CopyAt(runs, consumers, copies, holds, seconds, n - 1);
      hide *;
      CopiesAdd(runs, consumers, copies, holds, seconds, n - 1);
      CopiesStep(runs, consumers, copies, holds, 1000 * seconds, n);
      OverAdds(CopiesMs(runs, consumers, n - 1), CopyMs(runs, consumers[n - 1]), seconds);
    } else {
      hide AreCopies;
      OverAdds(0.0, 0.0, seconds);
    }
  }

  lemma CopyAt(runs: Runs, consumers: seq<Consumer>, copies: seq<seq<nat>>, holds: seq<nat>, seconds: nat, k: nat)
    requires AreCopies(runs, consumers, copies, holds, seconds) && k < |consumers|
    ensures |copies| == |holds| == |consumers|
    ensures Over(CopyMs(runs, consumers[k]), seconds) == CopyMilliseconds(copies[k], holds[k], 1000 * seconds) as real
  {
    hide CopyMs, Over;
    AllCopies(copies[k], holds[k], 1000 * seconds);
  }

  lemma CopiesStep(runs: Runs, consumers: seq<Consumer>, copies: seq<seq<nat>>, holds: seq<nat>, ms: nat, n: nat)
    requires 0 < n <= |consumers| && |copies| == |holds| == |consumers|
    ensures CopiesMs(runs, consumers, n) == CopiesMs(runs, consumers, n - 1) + CopyMs(runs, consumers[n - 1])
    ensures AllCopyMs(copies, holds, ms, n)
         == AllCopyMs(copies, holds, ms, n - 1) + CopyMilliseconds(copies[n - 1], holds[n - 1], ms)
  {
    hide CopyMs;
  }

  lemma TimesSum(x: real, y: real, t: real)
    ensures (x + y) * t == x * t + y * t
  {
  }

  /** A node's working memory is charged as the average over all its consumers' copies. */
  lemma CopiesAreAverage(runs: Runs, m: Measured, copies: seq<seq<nat>>, holds: seq<nat>, seconds: nat)
    requires m.held.Some? && m.held.value.perConsumer && seconds > 0
    requires AreCopies(runs, ConsumersOf(runs, m.id), copies, holds, seconds)
    ensures ByteSeconds(runs, m)
         == AverageBytes(m.held.value.bytes, AllCopyMs(copies, holds, 1000 * seconds, |copies|), 1000 * seconds)
  {
    var consumers := ConsumersOf(runs, m.id);
    assert ByteSeconds(runs, m) == HeldFor(m.held.value.bytes, CopiesMs(runs, consumers, |consumers|));
    hide *;
    CopiesAdd(runs, consumers, copies, holds, seconds, |consumers|);
    HeldCopies(m.held.value.bytes, CopiesMs(runs, consumers, |consumers|), AllCopyMs(copies, holds, 1000 * seconds, |copies|), seconds);
  }

  lemma HeldCopies(bytes: nat, msPerSecond: real, copyMs: nat, seconds: nat)
    requires seconds > 0 && Over(msPerSecond, seconds) == copyMs as real
    ensures HeldFor(bytes, msPerSecond) == AverageBytes(bytes, copyMs, 1000 * seconds)
  {
    assert (1000 * seconds) as real == 1000.0 * seconds as real;
    PerMillisecond(bytes as real, msPerSecond, seconds as real, copyMs as real);
  }

  /** A copy is held as its consumer runs: at a query's rate for its latency, at a node's rate for its longest reader. */
  lemma CopyIsConsumer(runs: Runs, c: Consumer, executions: nat, held: nat, seconds: nat)
    requires seconds > 0
    requires match c
             case Query(q) =>
               && RateAt(runs.rates, q).Success? && RateAt(runs.rates, q).value * seconds as real == executions as real
               && q < |runs.latencies| && runs.latencies[q] == held as real
             case Materialized(node) =>
               && node in runs.perSecond && runs.perSecond[node] * seconds as real == executions as real
               && ReaderMs(runs, node) == held as real
    ensures CopyMs(runs, c) * seconds as real == (executions * held) as real
  {
    var r := if c.Query? then RateAt(runs.rates, c.query).value else runs.perSecond[c.node];
    var h, t := held as real, seconds as real;
    assert (executions * held) as real == executions as real * h;
    Commute(r, h, t);
    assert (r * h) * t == (r * t) * h by { assert r * (h * t) == h * (r * t); }
    hide ReaderMs;
  }

  // ---------------------------------------------------- requests in time

  /** The operations charged for one query's requests take its requests' fixed time. */
  lemma RequestsTakeTheirTime(evaluationMs: real, msPerCpuOp: real, perSecond: real)
    requires msPerCpuOp != 0.0
    ensures RequestOps(evaluationMs, msPerCpuOp, perSecond) * msPerCpuOp == evaluationMs * perSecond
  {
    var q := evaluationMs / msPerCpuOp;
    assert q * msPerCpuOp == evaluationMs;
    Commute(q, perSecond, msPerCpuOp);
    assert (q * perSecond) * msPerCpuOp == (q * msPerCpuOp) * perSecond by { assert q * (perSecond * msPerCpuOp) == perSecond * (q * msPerCpuOp); }
  }

  /** The queries' known rates, added. */
  function TotalRate(rates: seq<Result<real, string>>, n: nat): real {
    if n == 0 then 0.0
    else TotalRate(rates, n - 1) + if n - 1 < |rates| && rates[n - 1].Success? then rates[n - 1].value else 0.0
  }

  /** All operations charged take the requests' time per second, every query's at its rate. */
  lemma {:induction false} AllRequestsTakeTheirTime(starts: seq<seq<nat>>, rates: seq<Result<real, string>>, evaluationMs: real,
                                                    msPerCpuOp: real, n: nat)
    requires n <= |starts| && msPerCpuOp != 0.0
    ensures AllOps(starts, rates, evaluationMs, msPerCpuOp, n) * msPerCpuOp == evaluationMs * TotalRate(rates, n)
  {
    hide RequestOps;
    if n > 0 {
      AllRequestsTakeTheirTime(starts, rates, evaluationMs, msPerCpuOp, n - 1);
      var rate := RateAt(rates, n - 1);
      var ops := if rate.Success? then RequestOps(evaluationMs, msPerCpuOp, rate.value) else 0.0;
      var known := if rate.Success? then rate.value else 0.0;
      if rate.Success? { RequestsTakeTheirTime(evaluationMs, msPerCpuOp, rate.value); }
      TimesSum(AllOps(starts, rates, evaluationMs, msPerCpuOp, n - 1), ops, msPerCpuOp);
      assert evaluationMs * (TotalRate(rates, n - 1) + known) == evaluationMs * TotalRate(rates, n - 1) + evaluationMs * known;
    }
  }

  // ------------------------------------------------------- work in time

  /** `counts[i]` executions of node `i` in the time. */
  ghost predicate AreExecutions(nodes: seq<Measured>, counts: seq<nat>, seconds: nat) {
    |counts| == |nodes| && forall i :: 0 <= i < |nodes| ==> Over(nodes[i].perSecond, seconds) == counts[i] as real
  }

  /** The operations of all executions. */
  function OpsRun(nodes: seq<Measured>, counts: seq<nat>, n: nat): real
    requires n <= |nodes| == |counts|
  {
    if n == 0 then 0.0 else OpsRun(nodes, counts, n - 1) + counts[n - 1] as real * nodes[n - 1].cpuOps
  }

  /** The bytes they scan. */
  function BytesScanned(nodes: seq<Measured>, counts: seq<nat>, n: nat): real
    requires n <= |nodes| == |counts|
  {
    if n == 0 then 0.0 else BytesScanned(nodes, counts, n - 1) + counts[n - 1] as real * nodes[n - 1].scanBytes as real
  }

  function BytesKept(nodes: seq<Measured>, n: nat): real
    requires n <= |nodes|
  {
    if n == 0 then 0.0 else BytesKept(nodes, n - 1) + nodes[n - 1].averageMemoryBytes
  }

  function BytesStored(nodes: seq<Measured>, n: nat): nat
    requires n <= |nodes|
  {
    if n == 0 then 0 else BytesStored(nodes, n - 1) + nodes[n - 1].diskBytes
  }

  lemma ExecutionsWork(rate: real, work: real, seconds: nat, count: nat)
    requires Over(rate, seconds) == count as real
    ensures Over(work * rate, seconds) == count as real * work
  {
    Commute(work, rate, seconds as real);
  }

  /** Over the time, a plan's usage is what its nodes' executions do, and what its nodes keep. */
  lemma {:induction false} UsageInTime(nodes: seq<Measured>, counts: seq<nat>, seconds: nat, n: nat)
    requires AreExecutions(nodes, counts, seconds) && n <= |nodes|
    ensures |counts| == |nodes|
    ensures Over(UsageOf(nodes, n).cpuOpsPerSecond, seconds) == OpsRun(nodes, counts, n)
    ensures Over(UsageOf(nodes, n).scannedBytesPerSecond, seconds) == BytesScanned(nodes, counts, n)
    ensures UsageOf(nodes, n).averageMemoryBytes == BytesKept(nodes, n)
    ensures UsageOf(nodes, n).diskBytes
         == if BytesStored(nodes, n) > 0xFFFF_FFFF_FFFF_FFFF then 0xFFFF_FFFF_FFFF_FFFF else BytesStored(nodes, n)
  {
    if n > 0 {
      var m := nodes[n - 1];
      UsageInTime(nodes, counts, seconds, n - 1);
      ExecutionsWork(m.perSecond, m.cpuOps, seconds, counts[n - 1]);
      ExecutionsWork(m.perSecond, m.scanBytes as real, seconds, counts[n - 1]);
      OverAdds(UsageOf(nodes, n - 1).cpuOpsPerSecond, m.cpuOps * m.perSecond, seconds);
      OverAdds(UsageOf(nodes, n - 1).scannedBytesPerSecond, m.scanBytes as real * m.perSecond, seconds);
      hide Over, AreExecutions;
    } else {
      OverAdds(0.0, 0.0, seconds);
    }
  }

  /** What so much of everything costs: operations, bytes scanned, byte-seconds in memory and on disk. */
  function Bill(p: Prices, ops: real, scanned: real, memory: real, disk: real): real {
    p.cpuOp * ops + p.scannedByte * scanned + p.memoryByteSecond * memory + p.diskByteSecond * disk
  }

  lemma PricedOver(price: real, amount: real, seconds: nat)
    ensures Over(Worth(price, amount), seconds) == price * Over(amount, seconds)
  {
    Commute(price, amount, seconds as real);
  }

  /** Over the time, usage costs its operations, bytes and byte-seconds at their prices. */
  lemma UsageIsBilled(u: Usage, disk: nat, p: Prices, seconds: nat)
    ensures Over(Priced(u, disk, p), seconds)
         == Bill(p, Over(u.cpuOpsPerSecond, seconds), Over(u.scannedBytesPerSecond, seconds), Over(u.averageMemoryBytes, seconds),
                 Over(disk as real, seconds))
  {
    PricedOver(p.cpuOp, u.cpuOpsPerSecond, seconds);
    PricedOver(p.scannedByte, u.scannedBytesPerSecond, seconds);
    PricedOver(p.memoryByteSecond, u.averageMemoryBytes, seconds);
    PricedOver(p.diskByteSecond, disk as real, seconds);
    var a, b, c, d := Worth(p.cpuOp, u.cpuOpsPerSecond), Worth(p.scannedByte, u.scannedBytesPerSecond),
      Worth(p.memoryByteSecond, u.averageMemoryBytes), Worth(p.diskByteSecond, disk as real);
    hide Worth, Over;
    OverAdds(a, b, seconds);
    OverAdds(a + b, c, seconds);
    OverAdds(a + b + c, d, seconds);
  }

  /** Over the time, a node's own cost is that of its executions and of what it keeps. */
  lemma NodeIsBilled(m: Measured, p: Prices, seconds: nat, count: nat)
    requires Over(m.perSecond, seconds) == count as real
    ensures Over(OwnCost(m, p), seconds)
         == Bill(p, count as real * m.cpuOps, count as real * m.scanBytes as real, Over(m.averageMemoryBytes, seconds),
                 Over(m.diskBytes as real, seconds))
  {
    var work := m.cpuOps * p.cpuOp + m.scanBytes as real * p.scannedByte;
    var kept, stored := Worth(p.memoryByteSecond, m.averageMemoryBytes), Worth(p.diskByteSecond, m.diskBytes as real);
    ExecutionsWork(m.perSecond, work, seconds, count);
    PricedOver(p.memoryByteSecond, m.averageMemoryBytes, seconds);
    PricedOver(p.diskByteSecond, m.diskBytes as real, seconds);
    OverAdds(work * m.perSecond, kept, seconds);
    OverAdds(work * m.perSecond + kept, stored, seconds);
    WorkPriced(count as real, m.cpuOps, p.cpuOp, m.scanBytes as real, p.scannedByte);
    hide Worth, Over;
  }

  lemma WorkPriced(count: real, ops: real, cpu: real, bytes: real, scan: real)
    ensures count * (ops * cpu + bytes * scan) == cpu * (count * ops) + scan * (count * bytes)
  {
    Commute(count, ops, cpu);
    Commute(count, bytes, scan);
  }

  /**
   Over the time, a priced plan costs the operations its executions and requests
   run, the bytes they scan, the byte-seconds it keeps and holds, and its disk.
   */
  lemma PlanIsBilled(nodes: seq<Measured>, requests: Requests, runs: Runs, p: Prices, raw: map<nat, Scan>, disk: nat,
                     cost: real, a: Accounts, counts: seq<nat>, seconds: nat)
    requires requests.msPerCpuOp != 0.0 && PlanPriced(nodes, requests, runs, p, raw, disk, cost, a)
    requires AreExecutions(nodes, counts, seconds)
    ensures |counts| == |nodes|
    ensures Over(cost, seconds)
         == Bill(p, OpsRun(nodes, counts, |nodes|) + Over(OverheadOps(requests), seconds),
                 BytesScanned(nodes, counts, |nodes|),
                 Over(BytesKept(nodes, |nodes|), seconds) + Over(AllByteSeconds(runs, nodes, |nodes|), seconds),
                 Over(disk as real, seconds))
  {
    hide *;
    UsageInTime(nodes, counts, seconds, |nodes|);
    PlanUsageIs(nodes, requests, runs, p, raw, disk, cost, a);
    UsageIsBilled(a.usage, disk, p, seconds);
    OverAdds(UsageOf(nodes, |nodes|).cpuOpsPerSecond, OverheadOps(requests), seconds);
    OverAdds(BytesKept(nodes, |nodes|), AllByteSeconds(runs, nodes, |nodes|), seconds);
  }

  lemma PlanUsageIs(nodes: seq<Measured>, requests: Requests, runs: Runs, p: Prices, raw: map<nat, Scan>, disk: nat,
                    cost: real, a: Accounts)
    requires requests.msPerCpuOp != 0.0 && PlanPriced(nodes, requests, runs, p, raw, disk, cost, a)
    ensures cost == Priced(a.usage, disk, p)
    ensures a.usage.cpuOpsPerSecond == UsageOf(nodes, |nodes|).cpuOpsPerSecond + OverheadOps(requests)
    ensures a.usage.scannedBytesPerSecond == UsageOf(nodes, |nodes|).scannedBytesPerSecond
    ensures a.usage.averageMemoryBytes == UsageOf(nodes, |nodes|).averageMemoryBytes + AllByteSeconds(runs, nodes, |nodes|)
  {
    hide Priced, UsageOf, OverheadOps, AllByteSeconds, NodesPriced, IsDisk;
  }
}
