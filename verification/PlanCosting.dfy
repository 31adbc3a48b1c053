/**
 The cost of a plan under pay-as-you-go prices: every charge to a node, or to no
 node, is a priced part of the plan's usage (crates/cost/src/usage.rs:54-330 and
 1098-1220; the equation, crates/cost/src/lib.rs:216-218).
 */
module PlanCosting {
  import opened ExecutionWalks
  import opened FiniteSums
  import opened RealBounds
  import opened Results

  const U64_MAX: nat := 0xFFFF_FFFF_FFFF_FFFF

  datatype Prices = Prices(cpuOp: real, scannedByte: real, memoryByteSecond: real, diskByteSecond: real)

  /** Memory held only while an evaluation runs: bytes, executions per second, and whether each consumer has its own copy. */
  datatype Held = Held(bytes: nat, perSecond: real, perConsumer: bool)

  datatype RawScan = RawScan(source: nat, bytes: nat)

  /** One node as measured: the work of one execution, how often it runs, and what it keeps. */
  datatype Measured = Measured(
    id: nat, cpuOps: real, scanBytes: nat, perSecond: real,
    averageMemoryBytes: real, diskBytes: nat, held: Option<Held>, rawScan: Option<RawScan>)

  datatype Usage = Usage(cpuOpsPerSecond: real, scannedBytesPerSecond: real, averageMemoryBytes: real, diskBytes: nat)

  /** The accounts while the plan is priced: its usage, each node's cost, and what no node owns. */
  datatype Accounts = Accounts(usage: Usage, perNode: map<nat, real>, unattached: real)

  const NO_USAGE := Usage(0.0, 0.0, 0.0, 0)

  function Capped(bytes: nat): nat {
    if bytes > U64_MAX then U64_MAX else bytes
  }

  function SaturatingAdd(a: nat, b: nat): nat {
    Capped(a + b)
  }

  /** One execution's CPU and scan price times its rate, then the kept state's. */
  function OwnCost(m: Measured, p: Prices): real {
    (m.cpuOps * p.cpuOp + m.scanBytes as real * p.scannedByte) * m.perSecond
      + Worth(p.memoryByteSecond, m.averageMemoryBytes) + Worth(p.diskByteSecond, m.diskBytes as real)
  }

  // ------------------------------------------------- the books balance

  function CostAt(perNode: map<nat, real>): nat -> real {
    (id: nat) => if id in perNode then perNode[id] else 0.0
  }

  ghost function Total(perNode: map<nat, real>): real {
    SumOver(perNode.Keys, CostAt(perNode))
  }

  /** Usage at its prices, with the bytes on disk given beside it. */
  function Priced(u: Usage, disk: nat, p: Prices): real {
    Worth(p.cpuOp, u.cpuOpsPerSecond) + Worth(p.scannedByte, u.scannedBytesPerSecond)
      + Worth(p.memoryByteSecond, u.averageMemoryBytes) + Worth(p.diskByteSecond, disk as real)
  }

  function Worth(price: real, amount: real): real {
    price * amount
  }

  /** Every charge is usage at its price; `disk` is the bytes on disk before the counter saturates. */
  ghost predicate Balanced(a: Accounts, disk: nat, p: Prices) {
    && a.usage.diskBytes == Capped(disk)
    && Total(a.perNode) + a.unattached == Priced(a.usage, disk, p)
  }

  lemma ChargeAdds(perNode: map<nat, real>, id: nat, charge: real)
    ensures Total(perNode[id := CostAt(perNode)(id) + charge]) == Total(perNode) + charge
  {
    var charged := perNode[id := CostAt(perNode)(id) + charge];
    var rest := perNode.Keys - {id};
    SumSplit(charged.Keys, id, CostAt(charged));
    assert charged.Keys - {id} == rest;
    SumCongruence(rest, CostAt(perNode), CostAt(charged));
    if id in perNode {
      SumSplit(perNode.Keys, id, CostAt(perNode));
    } else {
      assert perNode.Keys == rest;
    }
  }

  lemma PriceOfMore(price: real, x: real, y: real)
    ensures Worth(price, x + y) == Worth(price, x) + Worth(price, y)
  {
  }

  /** More CPU at its price, wherever it is charged. */
  lemma MoreCpu(u: Usage, disk: nat, p: Prices, ops: real)
    ensures Priced(u.(cpuOpsPerSecond := u.cpuOpsPerSecond + ops), disk, p) == Priced(u, disk, p) + Worth(p.cpuOp, ops)
  {
    PriceOfMore(p.cpuOp, u.cpuOpsPerSecond, ops);
  }

  lemma MoreMemory(u: Usage, disk: nat, p: Prices, byteSeconds: real)
    ensures Priced(u.(averageMemoryBytes := u.averageMemoryBytes + byteSeconds), disk, p)
         == Priced(u, disk, p) + Worth(p.memoryByteSecond, byteSeconds)
  {
    PriceOfMore(p.memoryByteSecond, u.averageMemoryBytes, byteSeconds);
  }

  lemma MoreDisk(u: Usage, disk: nat, p: Prices, bytes: nat, reported: nat)
    ensures Priced(u.(diskBytes := reported), disk + bytes, p) == Priced(u, disk, p) + Worth(p.diskByteSecond, bytes as real)
  {
    assert (disk + bytes) as real == disk as real + bytes as real;
    PriceOfMore(p.diskByteSecond, disk as real, bytes as real);
  }

  // ----------------------------------------------------- the node loop

  function After(u: Usage, m: Measured): Usage {
    Usage(u.cpuOpsPerSecond + m.cpuOps * m.perSecond,
          u.scannedBytesPerSecond + m.scanBytes as real * m.perSecond,
          u.averageMemoryBytes + m.averageMemoryBytes,
          SaturatingAdd(u.diskBytes, m.diskBytes))
  }

  lemma OwnCostIsPriced(u: Usage, disk: nat, m: Measured, p: Prices)
    ensures Priced(After(u, m), disk + m.diskBytes, p) == Priced(u, disk, p) + OwnCost(m, p)
  {
    var cpu, scan, ops, bytes := p.cpuOp, p.scannedByte, m.cpuOps, m.scanBytes as real;
    PriceOfMore(cpu, u.cpuOpsPerSecond, ops * m.perSecond);
    PriceOfMore(scan, u.scannedBytesPerSecond, bytes * m.perSecond);
    PriceOfMore(p.memoryByteSecond, u.averageMemoryBytes, m.averageMemoryBytes);
    assert (disk + m.diskBytes) as real == disk as real + m.diskBytes as real;
    PriceOfMore(p.diskByteSecond, disk as real, m.diskBytes as real);
    RatePriced(cpu, ops, scan, bytes, m.perSecond);
    hide Worth;
  }

  lemma RatePriced(cpu: real, ops: real, scan: real, bytes: real, rate: real)
    ensures (ops * cpu + bytes * scan) * rate == Worth(cpu, ops * rate) + Worth(scan, bytes * rate)
  {
    Commute(cpu, ops, rate);
    Commute(scan, bytes, rate);
  }

  /** Usage summed over the first `n` nodes. */
  function UsageOf(nodes: seq<Measured>, n: nat): Usage
    requires n <= |nodes|
  {
    if n == 0 then NO_USAGE else After(UsageOf(nodes, n - 1), nodes[n - 1])
  }

  function DiskOf(nodes: seq<Measured>, n: nat): nat
    requires n <= |nodes|
  {
    if n == 0 then 0 else DiskOf(nodes, n - 1) + nodes[n - 1].diskBytes
  }

  predicate DistinctIds(nodes: seq<Measured>) {
    forall i, j :: 0 <= i < j < |nodes| ==> nodes[i].id != nodes[j].id
  }

  /** Each of the first `n` nodes has its own cost. */
  ghost predicate OwnCosts(perNode: map<nat, real>, nodes: seq<Measured>, n: nat, p: Prices)
    requires n <= |nodes|
  {
    && (forall id :: id in perNode <==> exists i :: 0 <= i < n && nodes[i].id == id)
    && forall i :: 0 <= i < n ==> nodes[i].id in perNode && perNode[nodes[i].id] == OwnCost(nodes[i], p)
  }

  method MeasureNodes(nodes: seq<Measured>, p: Prices) returns (a: Accounts)
    requires DistinctIds(nodes)
    ensures a.usage == UsageOf(nodes, |nodes|) && a.unattached == 0.0
    ensures OwnCosts(a.perNode, nodes, |nodes|, p)
    ensures Balanced(a, DiskOf(nodes, |nodes|), p)
  {
    hide OwnCost, Priced, Total, Capped, Worth;
    a := Accounts(NO_USAGE, map[], 0.0);
    EmptyBooks(p);
    for i := 0 to |nodes|
      invariant a.usage == UsageOf(nodes, i) && a.unattached == 0.0
      invariant OwnCosts(a.perNode, nodes, i, p)
      invariant Balanced(a, DiskOf(nodes, i), p)
    {
      var m := nodes[i];
      NewNode(a, nodes, i, p);
      a := Accounts(After(a.usage, m), a.perNode[m.id := OwnCost(m, p)], a.unattached);
    }
  }

  lemma EmptyBooks(p: Prices)
    ensures Balanced(Accounts(NO_USAGE, map[], 0.0), 0, p)
  {
    NothingIsFree(p.cpuOp);
    NothingIsFree(p.scannedByte);
    NothingIsFree(p.memoryByteSecond);
    NothingIsFree(p.diskByteSecond);
    hide Worth;
  }

  lemma NewNode(a: Accounts, nodes: seq<Measured>, i: nat, p: Prices)
    requires DistinctIds(nodes) && i < |nodes| && OwnCosts(a.perNode, nodes, i, p)
    requires Balanced(a, DiskOf(nodes, i), p)
    ensures var m := nodes[i];
      var after := Accounts(After(a.usage, m), a.perNode[m.id := OwnCost(m, p)], a.unattached);
      OwnCosts(after.perNode, nodes, i + 1, p) && Balanced(after, DiskOf(nodes, i + 1), p)
  {
    var m := nodes[i];
    var disk := DiskOf(nodes, i);
    hide OwnCost, Priced, Total, Worth;
    assert m.id !in a.perNode;
    ChargeAdds(a.perNode, m.id, OwnCost(m, p));
    OwnCostIsPriced(a.usage, disk, m, p);
    assert CostAt(a.perNode)(m.id) + OwnCost(m, p) == OwnCost(m, p);
  }

  // ------------------------------------------------- requests' overhead

  /** CPU operations per second of one query's fixed request cost. */
  function RequestOps(evaluationMs: real, msPerCpuOp: real, rate: real): real
    requires msPerCpuOp != 0.0
  {
    evaluationMs / msPerCpuOp * rate
  }

  function RateAt(rates: seq<Result<real, string>>, q: nat): Result<real, string> {
    if q < |rates| then rates[q] else Success(0.0)
  }

  /** The operations of the first `n` queries that read `node` first, or read nothing when there is none. */
  function OpsCharged(starts: seq<seq<nat>>, rates: seq<Result<real, string>>, evaluationMs: real, msPerCpuOp: real,
                      node: Option<nat>, n: nat): real
    requires n <= |starts| && msPerCpuOp != 0.0
  {
    if n == 0 then 0.0
    else
      var firstRead := if starts[n - 1] == [] then None else Some(starts[n - 1][0]);
      var rate := RateAt(rates, n - 1);
      OpsCharged(starts, rates, evaluationMs, msPerCpuOp, node, n - 1)
        + if firstRead == node && rate.Success? then RequestOps(evaluationMs, msPerCpuOp, rate.value) else 0.0
  }

  function AllOps(starts: seq<seq<nat>>, rates: seq<Result<real, string>>, evaluationMs: real, msPerCpuOp: real,
                  n: nat): real
    requires n <= |starts| && msPerCpuOp != 0.0
  {
    if n == 0 then 0.0
    else
      var rate := RateAt(rates, n - 1);
      AllOps(starts, rates, evaluationMs, msPerCpuOp, n - 1)
        + if rate.Success? then RequestOps(evaluationMs, msPerCpuOp, rate.value) else 0.0
  }

  ghost predicate StartsMeasured(starts: seq<seq<nat>>, perNode: map<nat, real>) {
    forall q :: 0 <= q < |starts| && starts[q] != [] ==> starts[q][0] in perNode
  }

  /** The accounts after the first `n` queries' overhead. */
  ghost predicate RequestsCharged(before: Accounts, a: Accounts, starts: seq<seq<nat>>,
                                  rates: seq<Result<real, string>>,
                                  evaluationMs: real, msPerCpuOp: real, p: Prices, n: nat)
    requires n <= |starts| && msPerCpuOp != 0.0
  {
    && a.usage == before.usage.(cpuOpsPerSecond := before.usage.cpuOpsPerSecond + AllOps(starts, rates, evaluationMs, msPerCpuOp, n))
    && a.unattached == before.unattached + Worth(p.cpuOp, OpsCharged(starts, rates, evaluationMs, msPerCpuOp, None, n))
    && a.perNode.Keys == before.perNode.Keys
    && forall id :: id in a.perNode ==>
         a.perNode[id] == before.perNode[id] + Worth(p.cpuOp, OpsCharged(starts, rates, evaluationMs, msPerCpuOp, Some(id), n))
  }

  /** Each query's overhead goes to the node it reads first, or to the plan when it reads none. */
  method ChargeRequests(before: Accounts, starts: seq<seq<nat>>, rates: seq<Result<real, string>>, evaluationMs: real,
                        msPerCpuOp: real, p: Prices, first: nat, ghost disk: nat)
    returns (r: Result<Accounts, nat>)
    requires msPerCpuOp != 0.0 && StartsMeasured(starts, before.perNode) && Balanced(before, disk, p)
    ensures evaluationMs <= 0.0 ==> r == Success(before)
    ensures evaluationMs > 0.0 ==>
      (r.Success? <==> forall q :: 0 <= q < |starts| ==> RateAt(rates, q).Success?)
    ensures evaluationMs > 0.0 && r.Success? ==>
      RequestsCharged(before, r.value, starts, rates, evaluationMs, msPerCpuOp, p, |starts|)
    ensures r.Success? ==> Balanced(r.value, disk, p)
  {
    hide Balanced, RequestOps, OpsCharged, AllOps, Priced, Total, Worth;
    if evaluationMs <= 0.0 { return Success(before); }
    var a := before;
    NoRequests(before, starts, rates, evaluationMs, msPerCpuOp, p);
    for q := 0 to |starts|
      invariant RequestsCharged(before, a, starts, rates, evaluationMs, msPerCpuOp, p, q)
      invariant Balanced(a, disk, p)
      invariant forall k :: 0 <= k < q ==> RateAt(rates, k).Success?
    {
      var rate := RateAt(rates, q);
      if rate.Failure? { return Failure(if starts[q] == [] then first else starts[q][0]); }
      var ops := RequestOps(evaluationMs, msPerCpuOp, rate.value);
      var usage := a.usage.(cpuOpsPerSecond := a.usage.cpuOpsPerSecond + ops);
      ghost var was := a;
      if starts[q] == [] {
        a := Accounts(usage, a.perNode, a.unattached + Worth(p.cpuOp, ops));
        UnattachedBalances(was, disk, p, ops);
      } else {
        var id := starts[q][0];
        a := Accounts(usage, a.perNode[id := a.perNode[id] + Worth(p.cpuOp, ops)], a.unattached);
        AttachedBalances(was, disk, p, ops, id);
      }
      OneRequest(before, was, a, starts, rates, evaluationMs, msPerCpuOp, p, q);
    }
    r := Success(a);
  }

  lemma NoRequests(before: Accounts, starts: seq<seq<nat>>, rates: seq<Result<real, string>>, evaluationMs: real,
                   msPerCpuOp: real,
                   p: Prices)
    requires msPerCpuOp != 0.0
    ensures RequestsCharged(before, before, starts, rates, evaluationMs, msPerCpuOp, p, 0)
  {
    NothingIsFree(p.cpuOp);
    hide Worth;
  }

  lemma NothingIsFree(price: real)
    ensures Worth(price, 0.0) == 0.0
  {
  }

  lemma UnattachedBalances(a: Accounts, disk: nat, p: Prices, ops: real)
    requires Balanced(a, disk, p)
    ensures Balanced(Accounts(a.usage.(cpuOpsPerSecond := a.usage.cpuOpsPerSecond + ops), a.perNode,
                              a.unattached + Worth(p.cpuOp, ops)), disk, p)
  {
    hide Priced, Total, Worth;
    MoreCpu(a.usage, disk, p, ops);
  }

  lemma AttachedBalances(a: Accounts, disk: nat, p: Prices, ops: real, id: nat)
    requires Balanced(a, disk, p) && id in a.perNode
    ensures Balanced(Accounts(a.usage.(cpuOpsPerSecond := a.usage.cpuOpsPerSecond + ops),
                              a.perNode[id := a.perNode[id] + Worth(p.cpuOp, ops)], a.unattached), disk, p)
  {
    hide Priced, Total, Worth;
    MoreCpu(a.usage, disk, p, ops);
    ChargeAdds(a.perNode, id, Worth(p.cpuOp, ops));
  }

  lemma OneRequest(before: Accounts, was: Accounts, now: Accounts, starts: seq<seq<nat>>,
                   rates: seq<Result<real, string>>,
                   evaluationMs: real, msPerCpuOp: real, p: Prices, q: nat)
    requires msPerCpuOp != 0.0 && q < |starts| && RateAt(rates, q).Success?
    requires RequestsCharged(before, was, starts, rates, evaluationMs, msPerCpuOp, p, q)
    requires StartsMeasured(starts, before.perNode)
    requires var ops := RequestOps(evaluationMs, msPerCpuOp, RateAt(rates, q).value);
      var usage := was.usage.(cpuOpsPerSecond := was.usage.cpuOpsPerSecond + ops);
      now == if starts[q] == [] then Accounts(usage, was.perNode, was.unattached + Worth(p.cpuOp, ops))
             else Accounts(usage, was.perNode[starts[q][0] := CostAt(was.perNode)(starts[q][0]) + Worth(p.cpuOp, ops)], was.unattached)
    ensures RequestsCharged(before, now, starts, rates, evaluationMs, msPerCpuOp, p, q + 1)
  {
    hide RequestOps, Worth;
    var ops := RequestOps(evaluationMs, msPerCpuOp, RateAt(rates, q).value);
    var firstRead := if starts[q] == [] then None else Some(starts[q][0]);
    OpsGrow(starts, rates, evaluationMs, msPerCpuOp, q, None, p);
    forall id | id in now.perNode
      ensures now.perNode[id]
        == before.perNode[id] + Worth(p.cpuOp, OpsCharged(starts, rates, evaluationMs, msPerCpuOp, Some(id), q + 1))
    {
      OpsGrow(starts, rates, evaluationMs, msPerCpuOp, q, Some(id), p);
    }
  }

  lemma OpsGrow(starts: seq<seq<nat>>, rates: seq<Result<real, string>>, evaluationMs: real, msPerCpuOp: real, q: nat,
                node: Option<nat>, p: Prices)
    requires msPerCpuOp != 0.0 && q < |starts| && RateAt(rates, q).Success?
    ensures var ops := RequestOps(evaluationMs, msPerCpuOp, RateAt(rates, q).value);
      var firstRead := if starts[q] == [] then None else Some(starts[q][0]);
      Worth(p.cpuOp, OpsCharged(starts, rates, evaluationMs, msPerCpuOp, node, q + 1))
        == Worth(p.cpuOp, OpsCharged(starts, rates, evaluationMs, msPerCpuOp, node, q))
            + if firstRead == node then Worth(p.cpuOp, ops) else 0.0
  {
    hide RequestOps, Worth;
    var ops := RequestOps(evaluationMs, msPerCpuOp, RateAt(rates, q).value);
    PriceOfMore(p.cpuOp, OpsCharged(starts, rates, evaluationMs, msPerCpuOp, node, q), ops);
  }

  // ------------------------------------------------ raw data kept on disk

  datatype Scan = Scan(bytes: nat, node: nat)

  predicate Scans(nodes: seq<Measured>, i: nat, source: nat) {
    i < |nodes| && nodes[i].rawScan.Some? && nodes[i].rawScan.value.source == source
  }

  /** Among the first `n` nodes, the first largest scan of the source. */
  ghost predicate IsLargestScan(scan: Scan, nodes: seq<Measured>, n: nat, source: nat)
    requires n <= |nodes|
  {
    exists i :: 0 <= i < n && IsFirstLargest(scan, nodes, i, source)
  }

  predicate IsFirstLargest(scan: Scan, nodes: seq<Measured>, i: nat, source: nat) {
    && Scans(nodes, i, source) && scan == Scan(nodes[i].rawScan.value.bytes, nodes[i].id)
    && forall j :: 0 <= j < i && Scans(nodes, j, source) ==> nodes[j].rawScan.value.bytes < scan.bytes
  }

  /** Each source scanned by the first `n` nodes, with its largest scan; of equal ones the first. */
  ghost predicate LargestScansOf(raw: map<nat, Scan>, nodes: seq<Measured>, n: nat)
    requires n <= |nodes|
  {
    && (forall i, source :: 0 <= i < n && Scans(nodes, i, source) ==>
          source in raw && nodes[i].rawScan.value.bytes <= raw[source].bytes)
    && (forall source :: source in raw ==> IsLargestScan(raw[source], nodes, n, source))
  }

  method LargestScans(nodes: seq<Measured>) returns (raw: map<nat, Scan>)
    ensures LargestScansOf(raw, nodes, |nodes|)
  {
    raw := map[];
    for i := 0 to |nodes|
      invariant LargestScansOf(raw, nodes, i)
    {
      if nodes[i].rawScan.Some? {
        var scan := nodes[i].rawScan.value;
        ghost var was := raw;
        if scan.source !in raw || scan.bytes > raw[scan.source].bytes {
          raw := raw[scan.source := Scan(scan.bytes, nodes[i].id)];
        }
        OneScan(was, raw, nodes, i);
      } else {
        NoScan(raw, nodes, i);
      }
    }
  }

  lemma OneScan(was: map<nat, Scan>, now: map<nat, Scan>, nodes: seq<Measured>, i: nat)
    requires i < |nodes| && nodes[i].rawScan.Some? && LargestScansOf(was, nodes, i)
    requires var scan := nodes[i].rawScan.value;
      now == if scan.source !in was || scan.bytes > was[scan.source].bytes
              then was[scan.source := Scan(scan.bytes, nodes[i].id)] else was
    ensures LargestScansOf(now, nodes, i + 1)
  {
    var scan := nodes[i].rawScan.value;
    forall source | source in now ensures IsLargestScan(now[source], nodes, i + 1, source) {
      if source == scan.source && (scan.source !in was || scan.bytes > was[scan.source].bytes) {
        assert IsFirstLargest(now[source], nodes, i, source);
      } else {
        assert IsLargestScan(was[source], nodes, i, source);
      }
    }
  }

  lemma NoScan(raw: map<nat, Scan>, nodes: seq<Measured>, i: nat)
    requires i < |nodes| && nodes[i].rawScan.None? && LargestScansOf(raw, nodes, i)
    ensures LargestScansOf(raw, nodes, i + 1)
  {
    forall source | source in raw ensures IsLargestScan(raw[source], nodes, i + 1, source) {
      assert IsLargestScan(raw[source], nodes, i, source);
    }
  }

  /** The bytes of the sources charged to one node, or to any. */
  function BytesCharged(raw: map<nat, Scan>, node: Option<nat>): nat -> real {
    (source: nat) =>
      if source in raw && (node.None? || node.value == raw[source].node) then raw[source].bytes as real else 0.0
  }

  ghost predicate RawCharged(before: Accounts, a: Accounts, raw: map<nat, Scan>, done: set<nat>, p: Prices) {
    && a.usage == before.usage.(diskBytes := a.usage.diskBytes)
    && a.unattached == before.unattached
    && a.perNode.Keys == before.perNode.Keys
    && forall id :: id in a.perNode ==>
         a.perNode[id] == before.perNode[id] + Worth(p.diskByteSecond, SumOver(done, BytesCharged(raw, Some(id))))
  }

  /** The sources in any order: each on disk once, charged to the node of its largest scan. */
  method ChargeRawData(before: Accounts, raw: map<nat, Scan>, p: Prices, ghost disk: nat)
    returns (a: Accounts, ghost diskAfter: nat)
    requires Balanced(before, disk, p)
    requires forall source :: source in raw ==> raw[source].node in before.perNode
    ensures Balanced(a, diskAfter, p)
    ensures diskAfter as real == disk as real + SumOver(raw.Keys, BytesCharged(raw, None))
    ensures RawCharged(before, a, raw, raw.Keys, p)
  {
    hide Balanced, Worth, Capped, BytesCharged, SumOver;
    a := before;
    diskAfter := disk;
    var left := raw.Keys;
    NothingCharged(before, raw, p);
    while left != {}
      invariant left <= raw.Keys
      invariant Balanced(a, diskAfter, p)
      invariant diskAfter as real == disk as real + SumOver(raw.Keys - left, BytesCharged(raw, None))
      invariant RawCharged(before, a, raw, raw.Keys - left, p)
    {
      var source :| source in left;
      var scan := raw[source];
      ghost var was, done := a, raw.Keys - left;
      a := Accounts(a.usage.(diskBytes := SaturatingAdd(a.usage.diskBytes, scan.bytes)),
                    a.perNode[scan.node := a.perNode[scan.node] + Worth(p.diskByteSecond, scan.bytes as real)], a.unattached);
      RawBalances(was, diskAfter, p, scan);
      OneSource(before, was, a, raw, done, source, p);
      diskAfter := diskAfter + scan.bytes;
      left := left - {source};
      assert raw.Keys - left == done + {source};
    }
    assert raw.Keys - left == raw.Keys;
  }

  lemma NothingCharged(before: Accounts, raw: map<nat, Scan>, p: Prices)
    ensures RawCharged(before, before, raw, raw.Keys - raw.Keys, p)
    ensures SumOver(raw.Keys - raw.Keys, BytesCharged(raw, None)) == 0.0
  {
    NothingIsFree(p.diskByteSecond);
    assert raw.Keys - raw.Keys == {};
    hide Worth;
  }

  lemma RawBalances(a: Accounts, disk: nat, p: Prices, scan: Scan)
    requires Balanced(a, disk, p) && scan.node in a.perNode
    ensures Balanced(Accounts(a.usage.(diskBytes := SaturatingAdd(a.usage.diskBytes, scan.bytes)),
                              a.perNode[scan.node := a.perNode[scan.node] + Worth(p.diskByteSecond, scan.bytes as real)],
                               a.unattached),
                     disk + scan.bytes, p)
  {
    hide Priced, Total, Worth;
    MoreDisk(a.usage, disk, p, scan.bytes, SaturatingAdd(a.usage.diskBytes, scan.bytes));
    ChargeAdds(a.perNode, scan.node, Worth(p.diskByteSecond, scan.bytes as real));
  }

  lemma OneSource(before: Accounts, was: Accounts, now: Accounts, raw: map<nat, Scan>, done: set<nat>, source: nat,
                  p: Prices)
    requires source in raw && source !in done && RawCharged(before, was, raw, done, p)
        && raw[source].node in was.perNode
    requires var scan := raw[source];
      && now.usage == was.usage.(diskBytes := now.usage.diskBytes) && now.unattached == was.unattached
      && now.perNode == was.perNode[scan.node := was.perNode[scan.node] + Worth(p.diskByteSecond, scan.bytes as real)]
    ensures RawCharged(before, now, raw, done + {source}, p)
    ensures SumOver(done + {source}, BytesCharged(raw, None)) == SumOver(done, BytesCharged(raw, None)) + raw[source].bytes as real
  {
    hide Worth, SumOver, BytesCharged;
    SourceAdds(raw, done, source, None);
    forall id | id in now.perNode
      ensures now.perNode[id] == before.perNode[id] + Worth(p.diskByteSecond, SumOver(done + {source}, BytesCharged(raw, Some(id))))
    {
      SourceWorth(raw, done, source, id, p);
    }
  }

  lemma SourceWorth(raw: map<nat, Scan>, done: set<nat>, source: nat, id: nat, p: Prices)
    requires source in raw && source !in done
    ensures Worth(p.diskByteSecond, SumOver(done + {source}, BytesCharged(raw, Some(id))))
         == Worth(p.diskByteSecond, SumOver(done, BytesCharged(raw, Some(id))))
            + if id == raw[source].node then Worth(p.diskByteSecond, raw[source].bytes as real) else 0.0
  {
    hide Worth, SumOver, BytesCharged;
    SourceAdds(raw, done, source, Some(id));
    PriceOfMore(p.diskByteSecond, SumOver(done, BytesCharged(raw, Some(id))), raw[source].bytes as real);
  }

  lemma SourceAdds(raw: map<nat, Scan>, done: set<nat>, source: nat, node: Option<nat>)
    requires source in raw && source !in done
    ensures SumOver(done + {source}, BytesCharged(raw, node))
         == SumOver(done, BytesCharged(raw, node))
            + if node.None? || node.value == raw[source].node then raw[source].bytes as real else 0.0
  {
    SumSplit(done + {source}, source, BytesCharged(raw, node));
    assert done + {source} - {source} == done;
  }

  // --------------------------------------------------- held query memory

  /** The latency of the longest query that reaches the node. */
  ghost function LongestReader(reach: seq<set<nat>>, latencies: seq<real>, id: nat, n: nat): real
    requires n <= |reach| && n <= |latencies|
  {
    if n == 0 then 0.0
    else
      var rest := LongestReader(reach, latencies, id, n - 1);
      if id in reach[n - 1] then Larger(rest, latencies[n - 1]) else rest
  }

  function Shorter(a: nat, b: nat): nat {
    if a < b then a else b
  }

  method LongestReaderMs(reach: seq<set<nat>>, latencies: seq<real>, id: nat) returns (ms: real)
    ensures ms == LongestReader(reach, latencies, id, Shorter(|reach|, |latencies|))
  {
    ms := 0.0;
    for q := 0 to Shorter(|reach|, |latencies|)
      invariant ms == LongestReader(reach, latencies, id, q)
    {
      if id in reach[q] { ms := Larger(ms, latencies[q]); }
    }
  }

  /** It is a query's that reaches the node, and no such query's is longer. */
  lemma {:induction false} LongestReaderIs(reach: seq<set<nat>>, latencies: seq<real>, id: nat, n: nat)
    requires n <= |reach| && n <= |latencies|
    ensures var ms := LongestReader(reach, latencies, id, n);
      && ms >= 0.0
      && (forall q :: 0 <= q < n && id in reach[q] ==> latencies[q] <= ms)
      && (ms == 0.0 || exists q :: 0 <= q < n && id in reach[q] && ms == latencies[q])
  {
    if n > 0 { LongestReaderIs(reach, latencies, id, n - 1); }
  }

  /** What the held memory depends on: how often and how long everything runs. */
  datatype Runs = Runs(
    reach: seq<set<nat>>, latencies: seq<real>, rates: seq<Result<real, string>>, perSecond: map<nat, real>,
    consumers: map<nat, seq<Consumer>>)

  ghost function ReaderMs(runs: Runs, id: nat): real {
    LongestReader(runs.reach, runs.latencies, id, Shorter(|runs.reach|, |runs.latencies|))
  }

  /** One consumer's copy: held for its query's latency at its rate, or for its node's longest reader at the node's. */
  ghost function CopyMs(runs: Runs, c: Consumer): real {
    match c
    case Query(q) =>
      if RateAt(runs.rates, q).Success?
      then RateAt(runs.rates, q).value * (if q < |runs.latencies| then runs.latencies[q] else 0.0) else 0.0
    case Materialized(node) => (if node in runs.perSecond then runs.perSecond[node] else 0.0) * ReaderMs(runs, node)
  }

  ghost function CopiesMs(runs: Runs, consumers: seq<Consumer>, n: nat): real
    requires n <= |consumers|
  {
    if n == 0 then 0.0 else CopiesMs(runs, consumers, n - 1) + CopyMs(runs, consumers[n - 1])
  }

  function ConsumersOf(runs: Runs, id: nat): seq<Consumer> {
    if id in runs.consumers then runs.consumers[id] else []
  }

  /** Milliseconds a node's memory is held per second. */
  ghost function HeldMs(runs: Runs, id: nat, held: Held): real {
    if held.perConsumer then CopiesMs(runs, ConsumersOf(runs, id), |ConsumersOf(runs, id)|)
    else held.perSecond * ReaderMs(runs, id)
  }

  predicate RatesKnown(runs: Runs, id: nat, held: Held) {
    held.perConsumer ==>
      forall k :: 0 <= k < |ConsumersOf(runs, id)| && ConsumersOf(runs, id)[k].Query? ==>
        RateAt(runs.rates, ConsumersOf(runs, id)[k].query).Success?
  }

  ghost predicate MaterializedMeasured(runs: Runs) {
    forall id, k :: id in runs.consumers && 0 <= k < |runs.consumers[id]| && runs.consumers[id][k].Materialized? ==>
      runs.consumers[id][k].node in runs.perSecond
  }

  method HeldMilliseconds(runs: Runs, id: nat, held: Held) returns (r: Result<real, string>)
    requires MaterializedMeasured(runs)
    ensures r.Success? <==> RatesKnown(runs, id, held)
    ensures r.Success? ==> r.value == HeldMs(runs, id, held)
  {
    hide LongestReader;
    if !held.perConsumer {
      var ms := LongestReaderMs(runs.reach, runs.latencies, id);
      return Success(held.perSecond * ms);
    }
    var consumers := ConsumersOf(runs, id);
    var sum := 0.0;
    for k := 0 to |consumers|
      invariant sum == CopiesMs(runs, consumers, k)
      invariant forall j :: 0 <= j < k && consumers[j].Query? ==> RateAt(runs.rates, consumers[j].query).Success?
    {
      match consumers[k] {
        case Query(q) =>
          var rate := RateAt(runs.rates, q);
          if rate.Failure? { return Failure(rate.error); }
          sum := sum + rate.value * (if q < |runs.latencies| then runs.latencies[q] else 0.0);
        case Materialized(node) =>
          var ms := LongestReaderMs(runs.reach, runs.latencies, node);
          sum := sum + runs.perSecond[node] * ms;
      }
    }
    r := Success(sum);
  }

  /** Byte-seconds per second of one node's held memory. */
  ghost function ByteSeconds(runs: Runs, m: Measured): real {
    if m.held.Some? then HeldFor(m.held.value.bytes, HeldMs(runs, m.id, m.held.value)) else 0.0
  }

  /** Bytes held for so many milliseconds of every second. */
  function HeldFor(bytes: nat, ms: real): real {
    bytes as real * ms / 1000.0
  }

  ghost function AllByteSeconds(runs: Runs, nodes: seq<Measured>, n: nat): real
    requires n <= |nodes|
  {
    if n == 0 then 0.0 else AllByteSeconds(runs, nodes, n - 1) + ByteSeconds(runs, nodes[n - 1])
  }

  ghost predicate HeldCharged(before: Accounts, a: Accounts, runs: Runs, nodes: seq<Measured>, p: Prices, n: nat)
    requires n <= |nodes|
  {
    && a.usage == before.usage.(averageMemoryBytes := before.usage.averageMemoryBytes + AllByteSeconds(runs, nodes, n))
    && a.unattached == before.unattached
    && a.perNode.Keys == before.perNode.Keys
    && (forall i :: 0 <= i < n && nodes[i].id in a.perNode ==>
          a.perNode[nodes[i].id] == before.perNode[nodes[i].id] + Worth(p.memoryByteSecond, ByteSeconds(runs, nodes[i])))
    && forall id :: id in a.perNode && (forall i :: 0 <= i < n ==> nodes[i].id != id) ==> a.perNode[id] == before.perNode[id]
  }

  method ChargeHeld(before: Accounts, runs: Runs, nodes: seq<Measured>, p: Prices, ghost disk: nat)
    returns (r: Result<Accounts, nat>)
    requires DistinctIds(nodes) && MaterializedMeasured(runs) && Balanced(before, disk, p)
    requires forall i :: 0 <= i < |nodes| ==> nodes[i].id in before.perNode
    ensures r.Success? <==> forall i :: 0 <= i < |nodes| && nodes[i].held.Some? ==> RatesKnown(runs, nodes[i].id, nodes[i].held.value)
    ensures r.Success? ==> Balanced(r.value, disk, p)
    ensures r.Success? ==> HeldCharged(before, r.value, runs, nodes, p, |nodes|)
  {
    hide Balanced, Worth, HeldMs, RatesKnown, MaterializedMeasured, HeldCharged, HeldFor;
    NothingHeld(before, runs, nodes, p);
    var a := before;
    for i := 0 to |nodes|
      invariant Balanced(a, disk, p)
      invariant HeldCharged(before, a, runs, nodes, p, i)
      invariant forall j :: 0 <= j < i && nodes[j].held.Some? ==> RatesKnown(runs, nodes[j].id, nodes[j].held.value)
    {
      var m := nodes[i];
      ghost var was := a;
      HeldKeepsNodes(before, a, runs, nodes, p, i);
      if m.held.Some? {
        var heldMs := HeldMilliseconds(runs, m.id, m.held.value);
        if heldMs.Failure? { return Failure(m.id); }
        var byteSeconds := HeldFor(m.held.value.bytes, heldMs.value);
        MemoryBalances(a, disk, p, byteSeconds, m.id);
        a := Accounts(a.usage.(averageMemoryBytes := a.usage.averageMemoryBytes + byteSeconds),
                      a.perNode[m.id := a.perNode[m.id] + Worth(p.memoryByteSecond, byteSeconds)], a.unattached);
      }
      OneHeld(before, was, a, runs, nodes, p, i);
    }
    r := Success(a);
  }

  lemma OneHeld(before: Accounts, was: Accounts, now: Accounts, runs: Runs, nodes: seq<Measured>, p: Prices, i: nat)
    requires DistinctIds(nodes) && i < |nodes| && nodes[i].id in was.perNode
        && HeldCharged(before, was, runs, nodes, p, i)
    requires var m := nodes[i];
      now == if m.held.None? then was
             else Accounts(was.usage.(averageMemoryBytes := was.usage.averageMemoryBytes + ByteSeconds(runs, m)),
                           was.perNode[m.id := was.perNode[m.id] + Worth(p.memoryByteSecond, ByteSeconds(runs, m))], was.unattached)
    ensures HeldCharged(before, now, runs, nodes, p, i + 1)
  {
    NoMemoryIsFree(p);
    NoneHeld(runs, nodes[i]);
    hide Worth, ByteSeconds;
    assert forall j :: 0 <= j < i ==> nodes[j].id != nodes[i].id;
  }

  lemma NothingHeld(before: Accounts, runs: Runs, nodes: seq<Measured>, p: Prices)
    ensures HeldCharged(before, before, runs, nodes, p, 0)
  {
  }

  lemma HeldKeepsNodes(before: Accounts, a: Accounts, runs: Runs, nodes: seq<Measured>, p: Prices, n: nat)
    requires n <= |nodes| && HeldCharged(before, a, runs, nodes, p, n)
    ensures a.perNode.Keys == before.perNode.Keys
  {
    hide Worth, ByteSeconds;
  }

  lemma NoneHeld(runs: Runs, m: Measured)
    ensures m.held.None? ==> ByteSeconds(runs, m) == 0.0
  {
  }

  lemma NoMemoryIsFree(p: Prices)
    ensures Worth(p.memoryByteSecond, 0.0) == 0.0
  {
    NothingIsFree(p.memoryByteSecond);
  }

  lemma MemoryBalances(a: Accounts, disk: nat, p: Prices, byteSeconds: real, id: nat)
    requires Balanced(a, disk, p) && id in a.perNode
    ensures Balanced(Accounts(a.usage.(averageMemoryBytes := a.usage.averageMemoryBytes + byteSeconds),
                              a.perNode[id := a.perNode[id] + Worth(p.memoryByteSecond, byteSeconds)], a.unattached), disk, p)
  {
    hide Priced, Total, Worth;
    MoreMemory(a.usage, disk, p, byteSeconds);
    ChargeAdds(a.perNode, id, Worth(p.memoryByteSecond, byteSeconds));
  }

  // ------------------------------------------------------- the whole plan

  /** What the plan's queries ask for: which nodes each reads first, how often, and one request's fixed time. */
  datatype Requests = Requests(starts: seq<seq<nat>>, rates: seq<Result<real, string>>, evaluationMs: real, msPerCpuOp: real)

  ghost predicate IsPlan(nodes: seq<Measured>, requests: Requests, runs: Runs) {
    && DistinctIds(nodes) && requests.msPerCpuOp != 0.0 && MaterializedMeasured(runs)
    && forall q :: 0 <= q < |requests.starts| && requests.starts[q] != [] ==>
         exists i :: 0 <= i < |nodes| && nodes[i].id == requests.starts[q][0]
  }

  ghost predicate RatesAllKnown(nodes: seq<Measured>, requests: Requests, runs: Runs) {
    && (requests.evaluationMs > 0.0 ==> forall q :: 0 <= q < |requests.starts| ==> RateAt(requests.rates, q).Success?)
    && forall i :: 0 <= i < |nodes| && nodes[i].held.Some? ==> RatesKnown(runs, nodes[i].id, nodes[i].held.value)
  }

  /** The bytes the plan keeps on disk: each node's, and each scanned source once. */
  ghost predicate IsDisk(disk: nat, nodes: seq<Measured>, raw: map<nat, Scan>) {
    LargestScansOf(raw, nodes, |nodes|)
    && disk as real == DiskOf(nodes, |nodes|) as real + SumOver(raw.Keys, BytesCharged(raw, None))
  }

  function OverheadOps(requests: Requests): real
    requires requests.msPerCpuOp != 0.0
  {
    if requests.evaluationMs <= 0.0 then 0.0
    else AllOps(requests.starts, requests.rates, requests.evaluationMs, requests.msPerCpuOp, |requests.starts|)
  }

  /**
   Prices a plan: the nodes, the requests' overhead, the raw data and the held
   memory. Its cost is the sum of what the nodes and no node are charged.
   */
  method PlanCost(nodes: seq<Measured>, requests: Requests, runs: Runs, p: Prices, first: nat)
    returns (r: Result<(real, Accounts), nat>, ghost raw: map<nat, Scan>, ghost disk: nat)
    requires IsPlan(nodes, requests, runs)
    ensures r.Success? <==> RatesAllKnown(nodes, requests, runs)
    ensures r.Success? ==> PlanPriced(nodes, requests, runs, p, raw, disk, r.value.0, r.value.1)
  {
    hide *;
    PlanParts(nodes, requests, runs);
    var a := MeasureNodes(nodes, p);
    ghost var measured := a;
    StartsAreNodes(nodes, requests, runs, measured, p);
    disk := DiskOf(nodes, |nodes|);
    var overhead := ChargeRequests(a, requests.starts, requests.rates, requests.evaluationMs, requests.msPerCpuOp, p, first, disk);
    var scans := LargestScans(nodes);
    raw := scans;
    if overhead.Failure? {
      SomeRateUnknown(nodes, requests, runs);
      return Failure(overhead.error), raw, disk;
    }
    ghost var requested := overhead.value;
    RequestsKeepNodes(nodes, requests, measured, requested, raw, p);
    a, disk := ChargeRawData(overhead.value, scans, p, disk);
    ghost var stored := a;
    RawKeepsNodes(nodes, requested, stored, raw, p);
    var final := ChargeHeld(a, runs, nodes, p, disk);
    RatesOfAll(nodes, requests, runs);
    if final.Failure? { return Failure(final.error), raw, disk; }
    HeldKeepsNodes(stored, final.value, runs, nodes, p, |nodes|);
    SameNodes(stored.perNode, final.value.perNode, nodes);
    var cost := SumCosts(nodes, final.value.perNode, final.value.unattached);
    PlanIsPriced(nodes, requests, runs, p, raw, disk, measured, requested, stored, final.value, cost);
    r := Success((cost, final.value));
  }

  /** What a priced plan's accounts are: every part of its usage, every node's cost, and the cost as usage at its prices. */
  ghost predicate PlanPriced(nodes: seq<Measured>, requests: Requests, runs: Runs, p: Prices, raw: map<nat, Scan>,
                             disk: nat,
                             cost: real, a: Accounts)
    requires requests.msPerCpuOp != 0.0
  {
    && IsDisk(disk, nodes, raw)
    && cost == Priced(a.usage, disk, p)
    && a.usage.diskBytes == Capped(disk)
    && PlanUsage(nodes, requests, runs, p, a)
    && NodesPriced(nodes, requests, runs, p, raw, a)
  }

  ghost predicate PlanUsage(nodes: seq<Measured>, requests: Requests, runs: Runs, p: Prices, a: Accounts)
    requires requests.msPerCpuOp != 0.0
  {
    && a.usage.cpuOpsPerSecond == UsageOf(nodes, |nodes|).cpuOpsPerSecond + OverheadOps(requests)
    && a.usage.scannedBytesPerSecond == UsageOf(nodes, |nodes|).scannedBytesPerSecond
    && a.usage.averageMemoryBytes == UsageOf(nodes, |nodes|).averageMemoryBytes + AllByteSeconds(runs, nodes, |nodes|)
    && a.unattached == Worth(p.cpuOp, if requests.evaluationMs <= 0.0 then 0.0 else Overhead(requests, None))
  }

  ghost predicate NodesPriced(nodes: seq<Measured>, requests: Requests, runs: Runs, p: Prices, raw: map<nat, Scan>,
                              a: Accounts)
    requires requests.msPerCpuOp != 0.0
  {
    forall i :: 0 <= i < |nodes| ==> nodes[i].id in a.perNode && a.perNode[nodes[i].id] == NodeCost(nodes[i], requests, runs, raw, p)
  }

  lemma PlanParts(nodes: seq<Measured>, requests: Requests, runs: Runs)
    requires IsPlan(nodes, requests, runs)
    ensures DistinctIds(nodes) && requests.msPerCpuOp != 0.0 && MaterializedMeasured(runs)
  {
  }

  predicate NodesAre(perNode: map<nat, real>, nodes: seq<Measured>) {
    perNode.Keys == set i | 0 <= i < |nodes| :: nodes[i].id
  }

  lemma StartsAreNodes(nodes: seq<Measured>, requests: Requests, runs: Runs, a: Accounts, p: Prices)
    requires IsPlan(nodes, requests, runs) && OwnCosts(a.perNode, nodes, |nodes|, p)
    ensures StartsMeasured(requests.starts, a.perNode) && NodesAre(a.perNode, nodes)
  {
    hide OwnCost;
  }

  lemma SomeRateUnknown(nodes: seq<Measured>, requests: Requests, runs: Runs)
    requires requests.evaluationMs > 0.0 && !(forall q :: 0 <= q < |requests.starts| ==> RateAt(requests.rates, q).Success?)
    ensures !RatesAllKnown(nodes, requests, runs)
  {
    hide RateAt;
  }

  lemma RatesOfAll(nodes: seq<Measured>, requests: Requests, runs: Runs)
    requires requests.evaluationMs > 0.0 ==> forall q :: 0 <= q < |requests.starts| ==> RateAt(requests.rates, q).Success?
    ensures RatesAllKnown(nodes, requests, runs)
       <==> forall i :: 0 <= i < |nodes| && nodes[i].held.Some? ==> RatesKnown(runs, nodes[i].id, nodes[i].held.value)
  {
    hide RateAt, RatesKnown;
  }

  /** The accounts after the requests' overhead, if there is any. */
  ghost predicate OverheadCharged(before: Accounts, a: Accounts, requests: Requests, p: Prices)
    requires requests.msPerCpuOp != 0.0
  {
    if requests.evaluationMs <= 0.0 then a == before
    else RequestsCharged(before, a, requests.starts, requests.rates, requests.evaluationMs, requests.msPerCpuOp, p, |requests.starts|)
  }

  lemma RequestsKeepNodes(nodes: seq<Measured>, requests: Requests, before: Accounts, a: Accounts,
                          raw: map<nat, Scan>, p: Prices)
    requires requests.msPerCpuOp != 0.0 && NodesAre(before.perNode, nodes) && LargestScansOf(raw, nodes, |nodes|)
    requires requests.evaluationMs <= 0.0 ==> a == before
    requires requests.evaluationMs > 0.0 ==>
      RequestsCharged(before, a, requests.starts, requests.rates, requests.evaluationMs, requests.msPerCpuOp, p, |requests.starts|)
    ensures OverheadCharged(before, a, requests, p)
    ensures NodesAre(a.perNode, nodes) && forall source :: source in raw ==> raw[source].node in a.perNode
  {
    hide Worth, AllOps, OpsCharged;
    forall source | source in raw ensures raw[source].node in before.perNode {
      assert IsLargestScan(raw[source], nodes, |nodes|, source);
    }
  }

  lemma RawKeepsNodes(nodes: seq<Measured>, before: Accounts, a: Accounts, raw: map<nat, Scan>, p: Prices)
    requires NodesAre(before.perNode, nodes) && RawCharged(before, a, raw, raw.Keys, p)
    ensures NodesAre(a.perNode, nodes) && forall i :: 0 <= i < |nodes| ==> nodes[i].id in a.perNode
  {
    hide Worth, SumOver, BytesCharged;
  }

  lemma SameNodes(before: map<nat, real>, after: map<nat, real>, nodes: seq<Measured>)
    requires NodesAre(before, nodes) && after.Keys == before.Keys
    ensures NodesAre(after, nodes)
  {
  }

  lemma PlanIsPriced(nodes: seq<Measured>, requests: Requests, runs: Runs, p: Prices, raw: map<nat, Scan>, disk: nat,
                     measured: Accounts, requested: Accounts, stored: Accounts, final: Accounts, cost: real)
    requires requests.msPerCpuOp != 0.0
    requires measured.usage == UsageOf(nodes, |nodes|) && measured.unattached == 0.0
    requires OwnCosts(measured.perNode, nodes, |nodes|, p)
    requires OverheadCharged(measured, requested, requests, p)
    requires RawCharged(requested, stored, raw, raw.Keys, p) && LargestScansOf(raw, nodes, |nodes|)
    requires disk as real == DiskOf(nodes, |nodes|) as real + SumOver(raw.Keys, BytesCharged(raw, None))
    requires HeldCharged(stored, final, runs, nodes, p, |nodes|)
    requires Balanced(final, disk, p) && cost == Total(final.perNode) + final.unattached
    ensures PlanPriced(nodes, requests, runs, p, raw, disk, cost, final)
  {
    hide *;
    CostIsPriced(final, disk, p);
    UsagePriced(nodes, requests, runs, p, raw, measured, requested, stored, final);
    NodesArePriced(nodes, requests, runs, p, raw, measured, requested, stored, final);
    PartsMakePlan(nodes, requests, runs, p, raw, disk, cost, final);
  }

  lemma PartsMakePlan(nodes: seq<Measured>, requests: Requests, runs: Runs, p: Prices, raw: map<nat, Scan>,
                      disk: nat, cost: real,
                      a: Accounts)
    requires requests.msPerCpuOp != 0.0
    requires LargestScansOf(raw, nodes, |nodes|)
    requires disk as real == DiskOf(nodes, |nodes|) as real + SumOver(raw.Keys, BytesCharged(raw, None))
    requires cost == Priced(a.usage, disk, p) && a.usage.diskBytes == Capped(disk)
    requires PlanUsage(nodes, requests, runs, p, a) && NodesPriced(nodes, requests, runs, p, raw, a)
    ensures PlanPriced(nodes, requests, runs, p, raw, disk, cost, a)
  {
    hide PlanUsage, NodesPriced, LargestScansOf, SumOver, BytesCharged, DiskOf, Priced, Capped;
  }

  lemma UsagePriced(nodes: seq<Measured>, requests: Requests, runs: Runs, p: Prices, raw: map<nat, Scan>,
                    measured: Accounts, requested: Accounts, stored: Accounts, final: Accounts)
    requires requests.msPerCpuOp != 0.0
    requires measured.usage == UsageOf(nodes, |nodes|) && measured.unattached == 0.0
    requires OverheadCharged(measured, requested, requests, p)
    requires RawCharged(requested, stored, raw, raw.Keys, p)
    requires HeldCharged(stored, final, runs, nodes, p, |nodes|)
    ensures PlanUsage(nodes, requests, runs, p, final)
  {
    NothingIsFree(p.cpuOp);
    hide Worth, AllOps, OpsCharged, SumOver, BytesCharged, ByteSeconds, AllByteSeconds, UsageOf;
  }

  lemma NodesArePriced(nodes: seq<Measured>, requests: Requests, runs: Runs, p: Prices, raw: map<nat, Scan>,
                       measured: Accounts, requested: Accounts, stored: Accounts, final: Accounts)
    requires requests.msPerCpuOp != 0.0
    requires OwnCosts(measured.perNode, nodes, |nodes|, p)
    requires OverheadCharged(measured, requested, requests, p)
    requires RawCharged(requested, stored, raw, raw.Keys, p)
    requires HeldCharged(stored, final, runs, nodes, p, |nodes|)
    ensures NodesPriced(nodes, requests, runs, p, raw, final)
  {
    hide OwnCosts, OverheadCharged, RawCharged, HeldCharged, NodeCost;
    forall i | 0 <= i < |nodes|
      ensures nodes[i].id in final.perNode && final.perNode[nodes[i].id] == NodeCost(nodes[i], requests, runs, raw, p)
    {
      CostOfNode(nodes, requests, runs, raw, p, measured, requested, stored, final, i);
    }
  }

  function Overhead(requests: Requests, node: Option<nat>): real
    requires requests.msPerCpuOp != 0.0
  {
    OpsCharged(requests.starts, requests.rates, requests.evaluationMs, requests.msPerCpuOp, node, |requests.starts|)
  }

  /** What one node is charged: its own cost, the overhead of queries that read it first, its sources' raw data, its held memory. */
  ghost function NodeCost(m: Measured, requests: Requests, runs: Runs, raw: map<nat, Scan>, p: Prices): real
    requires requests.msPerCpuOp != 0.0
  {
    OwnCost(m, p)
      + Worth(p.cpuOp, if requests.evaluationMs <= 0.0 then 0.0 else Overhead(requests, Some(m.id)))
      + Worth(p.diskByteSecond, SumOver(raw.Keys, BytesCharged(raw, Some(m.id))))
      + Worth(p.memoryByteSecond, ByteSeconds(runs, m))
  }

  lemma CostIsPriced(a: Accounts, disk: nat, p: Prices)
    requires Balanced(a, disk, p)
    ensures Total(a.perNode) + a.unattached == Priced(a.usage, disk, p)
    ensures a.usage.diskBytes == Capped(disk)
  {
    hide Priced, Total;
  }

  /** The sum over the report's nodes and the plan's own charge. */
  method SumCosts(nodes: seq<Measured>, perNode: map<nat, real>, unattached: real) returns (cost: real)
    requires DistinctIds(nodes) && NodesAre(perNode, nodes)
    ensures cost == Total(perNode) + unattached
  {
    hide SumOver, CostAt;
    cost := 0.0;
    ghost var done: set<nat> := {};
    NothingSummed(perNode, done);
    for i := 0 to |nodes|
      invariant done == set j | 0 <= j < i :: nodes[j].id
      invariant cost == SumOver(done, CostAt(perNode))
    {
      var id := nodes[i].id;
      assert id in perNode && id !in done;
      SumSplit(done + {id}, id, CostAt(perNode));
      assert done + {id} - {id} == done;
      CostOf(perNode, id);
      cost := cost + perNode[id];
      done := done + {id};
    }
    assert done == perNode.Keys;
    cost := cost + unattached;
  }

  lemma NothingSummed(perNode: map<nat, real>, none: set<nat>)
    requires none == {}
    ensures SumOver(none, CostAt(perNode)) == 0.0
  {
  }

  lemma CostOf(perNode: map<nat, real>, id: nat)
    requires id in perNode
    ensures CostAt(perNode)(id) == perNode[id]
  {
  }

  lemma CostOfNode(nodes: seq<Measured>, requests: Requests, runs: Runs, raw: map<nat, Scan>, p: Prices,
                   measured: Accounts, requested: Accounts, stored: Accounts, final: Accounts, i: nat)
    requires requests.msPerCpuOp != 0.0 && i < |nodes|
    requires OwnCosts(measured.perNode, nodes, |nodes|, p)
    requires OverheadCharged(measured, requested, requests, p)
    requires RawCharged(requested, stored, raw, raw.Keys, p)
    requires HeldCharged(stored, final, runs, nodes, p, |nodes|)
    ensures nodes[i].id in final.perNode
    ensures final.perNode[nodes[i].id] == NodeCost(nodes[i], requests, runs, raw, p)
  {
    NothingIsFree(p.cpuOp);
    hide Worth, OwnCost, OpsCharged, AllOps, ByteSeconds, AllByteSeconds, BytesCharged, SumOver;
  }

  /** The cost is the usage at its prices exactly when the disk counter has not saturated, or disk is free. */
  lemma ConservedUnlessSaturated(u: Usage, disk: nat, p: Prices)
    requires u.diskBytes == Capped(disk)
    ensures Priced(u, disk, p) == Priced(u, u.diskBytes, p) <==> p.diskByteSecond == 0.0 || disk <= 0xFFFF_FFFF_FFFF_FFFF
  {
    var gap := disk as real - u.diskBytes as real;
    assert Worth(p.diskByteSecond, disk as real) == Worth(p.diskByteSecond, u.diskBytes as real) + Worth(p.diskByteSecond, gap) by {
      PriceOfMore(p.diskByteSecond, u.diskBytes as real, gap);
    }
    assert Worth(p.diskByteSecond, gap) == 0.0 <==> p.diskByteSecond == 0.0 || gap == 0.0;
    hide Worth;
  }

  // ------------------------------------------------- what one node keeps

  datatype Medium = Memory | Disk

  datatype Materialization =
    | NotMaterialized
    | KeptAcrossEvaluations(medium: Medium)
    | AtQuery(medium: Medium)
    | AtIngestion(medium: Medium)

  /** A node's state, working memory, and how many tumbling windows its chain has and retains. */
  datatype NodeState = NodeState(bytes: nat, working: nat, copies: nat, chain: bool, tumblingWindows: nat, retained: nat)

  datatype Kept = Kept(averageMemoryBytes: nat, peakMemoryBytes: nat, diskBytes: nat, held: Option<Held>)

  function Checked(bytes: int): Option<nat> {
    if 0 <= bytes <= U64_MAX then Some(bytes) else None
  }

  function KeptIn(medium: Medium, bytes: nat): Kept {
    if bytes == 0 then Kept(0, 0, 0, None)
    else if medium == Memory then Kept(bytes, bytes, 0, None)
    else Kept(0, 0, bytes, None)
  }

  /** What the node keeps, where, and for how long; `None` when a byte count does not fit. */
  function KeepState(m: Materialization, ingestion: bool, s: NodeState, perSecond: real): Option<Kept>
    requires s.tumblingWindows > 0
  {
    var window := s.bytes / s.tumblingWindows;
    match m
    case NotMaterialized =>
      Some(Kept(0, Capped(s.working * s.copies), 0,
                if !ingestion && s.working > 0 then Some(Held(s.working, perSecond, true)) else None))
    case KeptAcrossEvaluations(medium) =>
      if s.retained == 0 then None
      else
        var between := Checked(window * (s.retained - 1));
        if between.None? then None
        else if medium == Disk then Some(Kept(0, 0, between.value, None))
        else if s.retained == s.tumblingWindows then Some(Kept(between.value, s.bytes, 0, None))
        else
          var peak := Checked(window * s.retained);
          if peak.None? then None else Some(Kept(between.value, peak.value, 0, None))
    case AtQuery(medium) =>
      Some(if medium == Memory then Kept(0, s.bytes, 0, Some(Held(s.bytes, perSecond, false))) else Kept(0, 0, s.bytes, None))
    case AtIngestion(medium) =>
      var kept := if s.chain then Checked(window * (s.retained + 1)) else Checked(s.bytes * 2);
      if kept.None? then None else Some(KeptIn(medium, kept.value))
  }

  /** A node's bytes are charged one way only, averaged, on disk or held, and never average above their peak. */
  lemma KeptOneWay(m: Materialization, ingestion: bool, s: NodeState, perSecond: real)
    requires s.tumblingWindows > 0 && s.bytes <= U64_MAX && KeepState(m, ingestion, s, perSecond).Some?
    ensures var k := KeepState(m, ingestion, s, perSecond).value;
      && (k.averageMemoryBytes > 0 ==> k.diskBytes == 0 && k.held.None?)
      && (k.diskBytes > 0 ==> k.averageMemoryBytes == 0 && k.held.None?)
      && k.averageMemoryBytes <= k.peakMemoryBytes <= U64_MAX
      && k.diskBytes <= U64_MAX
      && (k.held.Some? ==> k.held.value.perSecond == perSecond && (k.held.value.perConsumer <==> m.NotMaterialized?))
  {
    var window := s.bytes / s.tumblingWindows;
    WindowsFit(s.bytes, s.tumblingWindows, window);
    if s.retained > 0 { MoreWindows(window, s.retained); }
    match m {
      case NotMaterialized =>
      case KeptAcrossEvaluations(_) =>
      case AtQuery(_) =>
      case AtIngestion(_) =>
    }
  }

  lemma WindowsFit(bytes: nat, windows: nat, window: nat)
    requires windows > 0 && window == bytes / windows
    ensures window * (windows - 1) <= bytes
  {
    assert window * windows <= bytes;
    MoreWindows(window, windows);
  }

  lemma MoreWindows(window: nat, n: nat)
    requires n > 0
    ensures window * (n - 1) <= window * n
  {
  }
}
