/**
 The rank a memo group is drawn at: one above its highest child group
 (tools/dag-viewer/memo.js:201-220).
 */
module ViewerRanks {

  /** A group's own children and its candidates'. */
  datatype Group = Group(id: int, children: seq<int>, candidates: seq<seq<int>>)

  function Flatten(lists: seq<seq<int>>): (r: seq<int>)
    ensures forall id :: id in r <==> InSome(lists, id)
  {
    if lists == [] then []
    else
      assert forall id :: InSome(lists, id) <==> id in lists[0] || InSome(lists[1..], id) by {
        assert lists == [lists[0]] + lists[1..];
      }
      lists[0] + Flatten(lists[1..])
  }

  predicate InSome(lists: seq<seq<int>>, id: int) {
    exists k :: 0 <= k < |lists| && id in lists[k]
  }

  /** Each member once, where it comes first. */
  function Distinct(ids: seq<int>): (r: seq<int>)
    ensures forall id :: id in r <==> id in ids
    ensures forall i, j :: 0 <= i < j < |r| ==> r[i] != r[j]
  {
    if ids == [] then []
    else
      var rest, last := Distinct(ids[..|ids| - 1]), ids[|ids| - 1];
      assert ids == ids[..|ids| - 1] + [last];
      if last in rest then rest else rest + [last]
  }

  predicate IsGroup(groups: seq<Group>, id: int) {
    exists i :: 0 <= i < |groups| && groups[i].id == id
  }

  /** The last group of the id. */
  function ById(groups: seq<Group>, id: int): (g: Group)
    requires IsGroup(groups, id)
    ensures g.id == id && exists i :: 0 <= i < |groups| && groups[i] == g && forall j :: i < j < |groups| ==> groups[j].id != id
  {
    var last := groups[|groups| - 1];
    if last.id == id then last
    else
      assert forall i :: 0 <= i < |groups| && groups[i].id == id ==> groups[..|groups| - 1][i] == groups[i];
      ById(groups[..|groups| - 1], id)
  }

  function Filtered(groups: seq<Group>, own: int, ids: seq<int>): (r: seq<int>)
    ensures forall id :: id in r <==> id in ids && IsGroup(groups, id) && id != own
  {
    if ids == [] then []
    else
      var rest, last := Filtered(groups, own, ids[..|ids| - 1]), ids[|ids| - 1];
      assert ids == ids[..|ids| - 1] + [last];
      if IsGroup(groups, last) && last != own then rest + [last] else rest
  }

  /** The other groups a group reads, each once. */
  function Reads(groups: seq<Group>, g: Group): (r: seq<int>)
    ensures forall id :: id in r <==>
      IsGroup(groups, id) && id != g.id && (id in g.children || exists k :: 0 <= k < |g.candidates| && id in g.candidates[k])
  {
    Filtered(groups, g.id, Distinct(g.children + Flatten(g.candidates)))
  }

  function ReadsOf(groups: seq<Group>, id: int): (r: seq<int>)
    requires IsGroup(groups, id)
    ensures forall read :: read in r ==> IsGroup(groups, read) && read != id
  {
    Reads(groups, ById(groups, id))
  }

  // ------------------------------------------------------ acyclic memos

  /** Along `order` every read leads down: there is no cycle. */
  ghost predicate Descends(groups: seq<Group>, order: int -> nat) {
    forall id, k :: IsGroup(groups, id) && 0 <= k < |ReadsOf(groups, id)| ==> order(ReadsOf(groups, id)[k]) < order(id)
  }

  function Larger(a: nat, b: nat): nat {
    if a < b then b else a
  }

  /** Zero without reads, else one above the highest. */
  ghost function Height(groups: seq<Group>, order: int -> nat, id: int): nat
    requires Descends(groups, order) && IsGroup(groups, id)
    decreases order(id), |ReadsOf(groups, id)| + 1
  {
    HighestOf(groups, order, id, |ReadsOf(groups, id)|)
  }

  /** One above the highest of the first `k` reads. */
  ghost function HighestOf(groups: seq<Group>, order: int -> nat, id: int, k: nat): nat
    requires Descends(groups, order) && IsGroup(groups, id) && k <= |ReadsOf(groups, id)|
    decreases order(id), k
  {
    if k == 0 then 0
    else Larger(HighestOf(groups, order, id, k - 1), Height(groups, order, ReadsOf(groups, id)[k - 1]) + 1)
  }

  /** Groups, each read by the one before. */
  ghost predicate IsChain(groups: seq<Group>, path: seq<int>) {
    && path != [] && (forall k :: 0 <= k < |path| ==> IsGroup(groups, path[k]))
    && forall k :: 0 <= k < |path| - 1 ==> path[k + 1] in ReadsOf(groups, path[k])
  }

  /** Every read lowers the height. */
  lemma {:induction false} ReadIsLower(groups: seq<Group>, order: int -> nat, id: int, k: nat, n: nat)
    requires Descends(groups, order) && IsGroup(groups, id) && k < n <= |ReadsOf(groups, id)|
    ensures Height(groups, order, ReadsOf(groups, id)[k]) < HighestOf(groups, order, id, n)
  {
    hide Height, HighestOf, ReadsOf, Descends;
    OneMoreRead(groups, order, id, n - 1);
    if k < n - 1 { ReadIsLower(groups, order, id, k, n - 1); }
  }

  lemma ReadLowers(groups: seq<Group>, order: int -> nat, id: int, read: int)
    requires Descends(groups, order) && IsGroup(groups, id) && read in ReadsOf(groups, id)
    ensures Height(groups, order, read) < Height(groups, order, id)
  {
    var k :| 0 <= k < |ReadsOf(groups, id)| && ReadsOf(groups, id)[k] == read;
    ReadIsLower(groups, order, id, k, |ReadsOf(groups, id)|);
  }

  /** No path down is longer than the height of its start. */
  lemma {:induction false} ChainsAreShort(groups: seq<Group>, order: int -> nat, path: seq<int>)
    requires Descends(groups, order) && IsChain(groups, path)
    ensures |path| - 1 <= Height(groups, order, path[0])
    decreases |path|
  {
    hide Descends, Height, ReadsOf;
    if |path| > 1 {
      assert path[0 + 1] in ReadsOf(groups, path[0]);
      ReadLowers(groups, order, path[0], path[1]);
      assert IsChain(groups, path[1..]) by {
        forall k | 0 <= k < |path[1..]| - 1 ensures path[1..][k + 1] in ReadsOf(groups, path[1..][k]) {
          assert path[k + 1 + 1] in ReadsOf(groups, path[k + 1]);
        }
      }
      ChainsAreShort(groups, order, path[1..]);
    }
  }

  /** Some path down is as long, and ends at a group that reads none. */
  lemma {:induction false} LongestChain(groups: seq<Group>, order: int -> nat, id: int) returns (path: seq<int>)
    requires Descends(groups, order) && IsGroup(groups, id)
    ensures IsChain(groups, path) && path[0] == id && |path| - 1 == Height(groups, order, id)
    ensures ReadsOf(groups, path[|path| - 1]) == []
    decreases order(id)
  {
    var n := |ReadsOf(groups, id)|;
    if n == 0 {
      path := [id];
    } else {
      var k := HighestRead(groups, order, id, n);
      var below := LongestChain(groups, order, ReadsOf(groups, id)[k]);
      path := [id] + below;
      ChainGrows(groups, id, below);
    }
  }

  lemma ChainGrows(groups: seq<Group>, id: int, below: seq<int>)
    requires IsGroup(groups, id) && IsChain(groups, below) && below[0] in ReadsOf(groups, id)
    ensures IsChain(groups, [id] + below)
  {
    hide ReadsOf;
    var path := [id] + below;
    forall k | 0 <= k < |path| - 1 ensures path[k + 1] in ReadsOf(groups, path[k]) {
      if k > 0 { assert below[k - 1 + 1] in ReadsOf(groups, below[k - 1]); }
    }
  }

  lemma {:induction false} HighestRead(groups: seq<Group>, order: int -> nat, id: int, n: nat) returns (k: nat)
    requires Descends(groups, order) && IsGroup(groups, id) && 0 < n <= |ReadsOf(groups, id)|
    ensures k < n && HighestOf(groups, order, id, n) == Height(groups, order, ReadsOf(groups, id)[k]) + 1
    decreases n
  {
    hide ReadsOf, Descends, Height;
    var last := Height(groups, order, ReadsOf(groups, id)[n - 1]) + 1;
    if n == 1 || HighestOf(groups, order, id, n - 1) < last {
      k := n - 1;
    } else {
      k := HighestRead(groups, order, id, n - 1);
    }
  }

  // -------------------------------------------------------- the recursion

  /** The ranks so far and the groups being visited. */
  class Ranks {
    const groups: seq<Group>
    var rank: map<int, nat>
    var visiting: set<int>

    constructor (groups: seq<Group>)
      ensures this.groups == groups && rank == map[] && visiting == {}
    {
      this.groups := groups;
      rank := map[];
      visiting := {};
    }

    ghost predicate Valid()
      reads this
    {
      visiting <= Ids(groups) && rank.Keys <= Ids(groups)
    }

    /** Every rank so far is the height. */
    ghost predicate AreHeights(order: int -> nat)
      requires Descends(groups, order)
      reads this
    {
      forall id :: id in rank ==> IsGroup(groups, id) && rank[id] == Height(groups, order, id)
    }

    /** A group's rank; a group met again while it is visited is cut off at zero. Ends on any memo, cyclic ones included. */
    method Visit(id: int, ghost order: int -> nat) returns (r: nat)
      requires Valid() && IsGroup(groups, id)
      modifies this
      ensures Valid() && visiting == old(visiting)
      ensures forall k :: k in old(rank) ==> k in rank && rank[k] == old(rank[k])
      ensures forall k :: k in rank && k !in old(rank) ==> k !in visiting
      ensures id in rank || id in visiting
      ensures Descends(groups, order) && old(AreHeights(order)) && (forall v :: v in old(visiting) ==> order(v) > order(id)) ==>
        AreHeights(order) && r == Height(groups, order, id)
      decreases Ids(groups) - visiting
    {
      hide Height, HighestOf, ReadsOf;
      if id in rank {
        return rank[id];
      }
      if id in visiting {
        return 0;
      }
      IdIsListed(groups, id);
      visiting := visiting + {id};
      r := 0;
      var readIds := ReadsOf(groups, id);
      ghost var straight := Descends(groups, order) && AreHeights(order) && forall v :: v in old(visiting) ==> order(v) > order(id);
      if straight { NoneYet(groups, order, id); }
      for k := 0 to |readIds|
        invariant Valid() && visiting == old(visiting) + {id}
        invariant forall j :: j in old(rank) ==> j in rank && rank[j] == old(rank[j])
        invariant forall j :: j in rank && j !in old(rank) ==> j !in visiting
        invariant straight ==> Descends(groups, order) && AreHeights(order) && r == HighestOf(groups, order, id, k)
      {
        if straight { ReadsDescend(groups, order, id, k); }
        var below := Visit(readIds[k], order);
        if straight { OneMoreRead(groups, order, id, k); }
        r := Larger(r, below + 1);
      }
      visiting := visiting - {id};
      assert visiting == old(visiting);
      rank := rank[id := r];
      if straight { AllReads(groups, order, id); }
    }

    /** Every group's rank: on a memo without cycles, the length of its longest path to a group that reads none. */
    method RankAll(ghost order: int -> nat)
      requires rank == map[] && visiting == {}
      modifies this
      ensures rank.Keys == Ids(groups)
      ensures Descends(groups, order) ==> AreHeights(order)
    {
      hide Height, Descends;
      for i := 0 to |groups|
        invariant Valid() && visiting == {}
        invariant forall j :: 0 <= j < i ==> groups[j].id in rank
        invariant Descends(groups, order) ==> AreHeights(order)
      {
        var r := Visit(groups[i].id, order);
      }
      assert Ids(groups) <= rank.Keys;
    }
  }

  ghost function Ids(groups: seq<Group>): set<int> {
    set i | 0 <= i < |groups| :: groups[i].id
  }

  lemma IdIsListed(groups: seq<Group>, id: int)
    ensures id in Ids(groups) <==> IsGroup(groups, id)
  {
  }

  lemma ReadsDescend(groups: seq<Group>, order: int -> nat, id: int, k: nat)
    requires Descends(groups, order) && IsGroup(groups, id) && k < |ReadsOf(groups, id)|
    ensures order(ReadsOf(groups, id)[k]) < order(id)
  {
  }

  lemma NoneYet(groups: seq<Group>, order: int -> nat, id: int)
    requires Descends(groups, order) && IsGroup(groups, id)
    ensures HighestOf(groups, order, id, 0) == 0
  {
  }

  lemma OneMoreRead(groups: seq<Group>, order: int -> nat, id: int, k: nat)
    requires Descends(groups, order) && IsGroup(groups, id) && k < |ReadsOf(groups, id)|
    ensures IsGroup(groups, ReadsOf(groups, id)[k])
    ensures HighestOf(groups, order, id, k + 1)
         == Larger(HighestOf(groups, order, id, k), Height(groups, order, ReadsOf(groups, id)[k]) + 1)
  {
    hide ReadsOf, Descends, Larger, Height;
  }

  lemma AllReads(groups: seq<Group>, order: int -> nat, id: int)
    requires Descends(groups, order) && IsGroup(groups, id)
    ensures Height(groups, order, id) == HighestOf(groups, order, id, |ReadsOf(groups, id)|)
  {
  }
}
