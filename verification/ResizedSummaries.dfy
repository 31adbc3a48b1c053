/**
 Rewriting summaries' parameters in a shared DAG of nodes with a cache by node
 identity (crates/accuracy/src/propagation.rs:162-244). Nodes live in an arena,
 children before parents; a node's identity is its position.
 */
module ResizedSummaries {
  import opened Results

  /** An operator; a sketch state's algorithm and parameters beside what it is. */
  datatype Op = Op(kind: nat, sketch: Option<nat>)

  datatype Node = Node(op: Op, children: seq<nat>, guarantee: Option<nat>, timing: nat, materialization: nat)

  /** What a node stands for, sharing forgotten. */
  datatype Tree = Tree(op: Op, children: seq<Tree>, guarantee: Option<nat>, timing: nat, materialization: nat)

  /** The new parameters of a state, whether an operator accepts its inputs, and the guarantee composed over them. */
  datatype Rules = Rules(
    resize: (nat, nat) -> Option<nat>,
    accepts: (Op, seq<Tree>) -> bool,
    compose: (Op, seq<Tree>) -> Option<nat>)

  predicate IsArena(nodes: seq<Node>) {
    forall i, c :: 0 <= i < |nodes| && 0 <= c < |nodes[i].children| ==> nodes[i].children[c] < i
  }

  function Unfold(nodes: seq<Node>, id: nat): Tree
    requires IsArena(nodes) && id < |nodes|
    decreases id, |nodes[id].children| + 1
  {
    var n := nodes[id];
    Tree(n.op, UnfoldChildren(nodes, id, |n.children|), n.guarantee, n.timing, n.materialization)
  }

  function UnfoldChildren(nodes: seq<Node>, id: nat, k: nat): (ts: seq<Tree>)
    requires IsArena(nodes) && id < |nodes| && k <= |nodes[id].children|
    ensures |ts| == k
    decreases id, k
  {
    if k == 0 then [] else UnfoldChildren(nodes, id, k - 1) + [Unfold(nodes, nodes[id].children[k - 1])]
  }

  // --------------------------------------------------- the plain rewrite

  /** The new parameters of the node's own sketch, when they differ. */
  function Resized(n: Node, id: nat, rules: Rules): Option<nat> {
    if n.op.sketch.None? then None
    else
      var params := rules.resize(id, n.op.sketch.value);
      if params.Some? && params.value != n.op.sketch.value then params else None
  }

  function ResizedOp(n: Node, id: nat, rules: Rules): Op {
    var params := Resized(n, id, rules);
    if params.Some? then n.op.(sketch := params) else n.op
  }

  /** The node's own sketch or one below it changes parameters. */
  ghost predicate Changes(nodes: seq<Node>, id: nat, rules: Rules)
    requires IsArena(nodes) && id < |nodes|
    decreases id
  {
    Resized(nodes[id], id, rules).Some?
    || exists c :: 0 <= c < |nodes[id].children| && Changes(nodes, nodes[id].children[c], rules)
  }

  /** The tree rewritten node by node, every occurrence on its own; `None` when an operator does not accept its inputs. */
  ghost function Plain(nodes: seq<Node>, id: nat, rules: Rules): Option<Tree>
    requires IsArena(nodes) && id < |nodes|
    decreases id, |nodes[id].children| + 1
  {
    var n := nodes[id];
    var children := PlainChildren(nodes, id, |n.children|, rules);
    if children.None? then None
    else if !Changes(nodes, id, rules) then Some(Unfold(nodes, id))
    else
      var op := ResizedOp(n, id, rules);
      if !rules.accepts(op, children.value) then None
      else
        var guarantee := if n.guarantee.Some? then rules.compose(op, children.value) else None;
        Some(Tree(op, children.value, guarantee, n.timing, n.materialization))
  }

  ghost function PlainChildren(nodes: seq<Node>, id: nat, k: nat, rules: Rules): (r: Option<seq<Tree>>)
    requires IsArena(nodes) && id < |nodes| && k <= |nodes[id].children|
    ensures r.Some? ==> |r.value| == k
    decreases id, k
  {
    if k == 0 then Some([])
    else
      var rest, last := PlainChildren(nodes, id, k - 1, rules), Plain(nodes, nodes[id].children[k - 1], rules);
      if rest.Some? && last.Some? then Some(rest.value + [last.value]) else None
  }

  // ------------------------------------------------------- reachability

  /** A path down the arena, each node a child of the one before. */
  ghost predicate IsDescent(nodes: seq<Node>, path: seq<nat>) {
    path != [] && (forall k :: 0 <= k < |path| ==> path[k] < |nodes|)
    && forall k :: 0 <= k < |path| - 1 ==> path[k + 1] in nodes[path[k]].children
  }

  ghost predicate Below(nodes: seq<Node>, id: nat, other: nat) {
    exists path :: IsDescent(nodes, path) && path[0] == id && path[|path| - 1] == other
  }

  /** `resize` gives the node's own sketch parameters other than it has. */
  predicate GivenOthers(nodes: seq<Node>, id: nat, rules: Rules)
    requires id < |nodes|
  {
    match nodes[id].op.sketch
    case None => false
    case Some(p) => rules.resize(id, p).Some? && rules.resize(id, p) != Some(p)
  }

  /** A node changes exactly when some sketch state it reaches is given other parameters. */
  lemma {:induction false} ChangesIffReached(nodes: seq<Node>, id: nat, rules: Rules)
    requires IsArena(nodes) && id < |nodes|
    ensures Changes(nodes, id, rules)
       <==> exists other: nat :: other < |nodes| && Below(nodes, id, other) && GivenOthers(nodes, other, rules)
    decreases id
  {
    assert forall other: nat :: other < |nodes| ==> (GivenOthers(nodes, other, rules) <==> Resized(nodes[other], other, rules).Some?);
    hide Resized, GivenOthers;
    if Changes(nodes, id, rules) {
      if Resized(nodes[id], id, rules).Some? {
        assert IsDescent(nodes, [id]);
        assert Below(nodes, id, id);
      } else {
        var c :| 0 <= c < |nodes[id].children| && Changes(nodes, nodes[id].children[c], rules);
        var child := nodes[id].children[c];
        ChangesIffReached(nodes, child, rules);
        var other: nat :| other < |nodes| && Below(nodes, child, other) && Resized(nodes[other], other, rules).Some?;
        BelowParent(nodes, id, child, other);
      }
    }
    forall other: nat | other < |nodes| && Below(nodes, id, other) && Resized(nodes[other], other, rules).Some?
      ensures Changes(nodes, id, rules)
    {
      var path :| IsDescent(nodes, path) && path[0] == id && path[|path| - 1] == other;
      ChangesAlong(nodes, path, rules);
    }
  }

  lemma BelowParent(nodes: seq<Node>, id: nat, child: nat, other: nat)
    requires id < |nodes| && child in nodes[id].children && Below(nodes, child, other)
    ensures Below(nodes, id, other)
  {
    var path :| IsDescent(nodes, path) && path[0] == child && path[|path| - 1] == other;
    assert IsDescent(nodes, [id] + path);
  }

  lemma {:induction false} ChangesAlong(nodes: seq<Node>, path: seq<nat>, rules: Rules)
    requires IsArena(nodes) && IsDescent(nodes, path)
    requires var last := path[|path| - 1]; Resized(nodes[last], last, rules).Some?
    ensures Changes(nodes, path[0], rules)
    decreases |path|
  {
    hide Resized;
    if |path| > 1 {
      ChangesAlong(nodes, path[1..], rules);
      var c :| 0 <= c < |nodes[path[0]].children| && nodes[path[0]].children[c] == path[1];
    }
  }

  // ------------------------------------------------ position by position

  /**
   `t` is the tree below `id` with the parameters `resize` gives: at every
   position the sketch has those given for its node and its own where none are,
   everything else of the operator, the timing and the materialization are the
   node's, and a node over any sketch given others has its guarantee composed
   again, if it had one, over inputs it accepts.
   */
  ghost predicate IsResized(nodes: seq<Node>, id: nat, t: Tree, rules: Rules)
    requires IsArena(nodes) && id < |nodes|
    decreases id
  {
    var n := nodes[id];
    && t.op == (match n.op.sketch
                case None => Op(n.op.kind, None)
                case Some(p) => Op(n.op.kind, if rules.resize(id, p).Some? then rules.resize(id, p) else Some(p)))
    && t.timing == n.timing && t.materialization == n.materialization
    && |t.children| == |n.children|
    && (forall c :: 0 <= c < |n.children| ==> IsResized(nodes, n.children[c], t.children[c], rules))
    && if exists other: nat :: other < |nodes| && Below(nodes, id, other) && GivenOthers(nodes, other, rules)
       then rules.accepts(t.op, t.children)
            && t.guarantee == if n.guarantee.None? then None else rules.compose(t.op, t.children)
       else t.guarantee == n.guarantee
  }

  lemma {:induction false} PlainChildAt(nodes: seq<Node>, id: nat, k: nat, c: nat, rules: Rules)
    requires IsArena(nodes) && id < |nodes| && c < k <= |nodes[id].children|
    requires PlainChildren(nodes, id, k, rules).Some?
    ensures Plain(nodes, nodes[id].children[c], rules) == Some(PlainChildren(nodes, id, k, rules).value[c])
  {
    hide Changes, Unfold;
    if c < k - 1 { PlainChildAt(nodes, id, k - 1, c, rules); }
  }

  /** The plain rewrite resizes every position, for whatever tree it gives. */
  lemma {:induction false} PlainIsResized(nodes: seq<Node>, id: nat, rules: Rules)
    requires IsArena(nodes) && id < |nodes| && Plain(nodes, id, rules).Some?
    ensures IsResized(nodes, id, Plain(nodes, id, rules).value, rules)
    decreases id
  {
    var n, t := nodes[id], Plain(nodes, id, rules).value;
    ChangesIffReached(nodes, id, rules);
    PlainGives(nodes, id, rules);
    OwnParameters(nodes, id, rules);
    hide Plain, PlainChildren, Unfold, UnfoldChildren, Changes, Resized, ResizedOp, Below, GivenOthers;
    forall c | 0 <= c < |n.children| ensures IsResized(nodes, n.children[c], t.children[c], rules) {
      PlainChildAt(nodes, id, |n.children|, c, rules);
      PlainIsResized(nodes, n.children[c], rules);
      if !Changes(nodes, id, rules) {
        ChildUnchanged(nodes, id, c, rules);
        UnchangedIsPlain(nodes, n.children[c], rules);
        UnfoldChildrenAre(nodes, id, |n.children|);
      }
    }
  }

  lemma ChildUnchanged(nodes: seq<Node>, id: nat, c: nat, rules: Rules)
    requires IsArena(nodes) && id < |nodes| && c < |nodes[id].children| && !Changes(nodes, id, rules)
    ensures !Changes(nodes, nodes[id].children[c], rules)
  {
    hide Resized;
  }

  lemma OwnParameters(nodes: seq<Node>, id: nat, rules: Rules)
    requires IsArena(nodes) && id < |nodes|
    ensures var n := nodes[id];
      && ResizedOp(n, id, rules) == (match n.op.sketch
                case None => Op(n.op.kind, None)
                case Some(p) => Op(n.op.kind, if rules.resize(id, p).Some? then rules.resize(id, p) else Some(p)))
      && (!Changes(nodes, id, rules) ==> ResizedOp(n, id, rules) == n.op)
  {
  }

  /** What the plain rewrite gives, changed or not. */
  lemma PlainGives(nodes: seq<Node>, id: nat, rules: Rules)
    requires IsArena(nodes) && id < |nodes| && Plain(nodes, id, rules).Some?
    ensures PlainChildren(nodes, id, |nodes[id].children|, rules).Some?
    ensures var n, t := nodes[id], Plain(nodes, id, rules).value;
      var children := PlainChildren(nodes, id, |n.children|, rules).value;
      && t.timing == n.timing && t.materialization == n.materialization
      && (if Changes(nodes, id, rules)
          then t.op == ResizedOp(n, id, rules) && t.children == children && rules.accepts(t.op, t.children)
               && t.guarantee == if n.guarantee.None? then None else rules.compose(t.op, t.children)
          else t.op == n.op && t.children == UnfoldChildren(nodes, id, |n.children|) && t.guarantee == n.guarantee)
  {
    hide Changes, ResizedOp, PlainChildren, UnfoldChildren;
  }

  lemma {:induction false} PlainChildrenFrom(nodes: seq<Node>, id: nat, k: nat, ts: seq<Tree>, rules: Rules)
    requires IsArena(nodes) && id < |nodes| && k <= |nodes[id].children| && |ts| == |nodes[id].children|
    requires forall c :: 0 <= c < k ==> Plain(nodes, nodes[id].children[c], rules) == Some(ts[c])
    ensures PlainChildren(nodes, id, k, rules) == Some(ts[..k])
  {
    hide Changes, Unfold;
    if k > 0 {
      PlainChildrenFrom(nodes, id, k - 1, ts, rules);
      assert ts[..k] == ts[..k - 1] + [ts[k - 1]];
    }
  }

  /** The plain rewrite gives `t` exactly when `t` is resized at every position, so it fails exactly when there is no such tree. */
  lemma {:induction false} PlainIffResized(nodes: seq<Node>, id: nat, t: Tree, rules: Rules)
    requires IsArena(nodes) && id < |nodes|
    ensures Plain(nodes, id, rules) == Some(t) <==> IsResized(nodes, id, t, rules)
    decreases id
  {
    if Plain(nodes, id, rules) == Some(t) { PlainIsResized(nodes, id, rules); }
    if IsResized(nodes, id, t, rules) {
      var n := nodes[id];
      forall c | 0 <= c < |n.children| ensures Plain(nodes, n.children[c], rules) == Some(t.children[c]) {
        PlainIffResized(nodes, n.children[c], t.children[c], rules);
      }
      PlainChildrenFrom(nodes, id, |n.children|, t.children, rules);
      assert t.children[..|n.children|] == t.children;
      ChangesIffReached(nodes, id, rules);
      OwnParameters(nodes, id, rules);
      hide Below, GivenOthers, Resized, ResizedOp, Unfold, PlainChildren, IsResized;
      if Changes(nodes, id, rules) {
        PlainOfChanged(nodes, id, rules, t.children);
      } else {
        UnchangedIsPlain(nodes, id, rules);
        UnfoldIs(nodes, id);
        UnfoldChildrenAre(nodes, id, |n.children|);
        forall c | 0 <= c < |n.children| ensures t.children[c] == Unfold(nodes, n.children[c]) {
          ChildUnchanged(nodes, id, c, rules);
          UnchangedIsPlain(nodes, n.children[c], rules);
        }
        assert t.children == UnfoldChildren(nodes, id, |n.children|);
      }
    }
  }

  // ------------------------------------------------------ a growing arena

  predicate Extends(before: seq<Node>, after: seq<Node>) {
    |before| <= |after| && forall i :: 0 <= i < |before| ==> after[i] == before[i]
  }

  /** New nodes change nothing about what old ones stand for. */
  lemma {:induction false} UnfoldKept(before: seq<Node>, after: seq<Node>, id: nat)
    requires IsArena(before) && IsArena(after) && Extends(before, after) && id < |before|
    ensures Unfold(after, id) == Unfold(before, id)
    decreases id, |before[id].children| + 1
  {
    UnfoldChildrenKept(before, after, id, |before[id].children|);
  }

  lemma {:induction false} UnfoldChildrenKept(before: seq<Node>, after: seq<Node>, id: nat, k: nat)
    requires IsArena(before) && IsArena(after) && Extends(before, after) && id < |before| && k <= |before[id].children|
    ensures UnfoldChildren(after, id, k) == UnfoldChildren(before, id, k)
    decreases id, k
  {
    if k > 0 {
      UnfoldChildrenKept(before, after, id, k - 1);
      UnfoldKept(before, after, before[id].children[k - 1]);
    }
  }

  /** A node that does not change is its own plain rewrite, if its inputs are rewritten at all. */
  lemma {:induction false} UnchangedIsPlain(nodes: seq<Node>, id: nat, rules: Rules)
    requires IsArena(nodes) && id < |nodes| && !Changes(nodes, id, rules)
    ensures Plain(nodes, id, rules) == Some(Unfold(nodes, id))
    decreases id, |nodes[id].children| + 1
  {
    UnchangedChildren(nodes, id, |nodes[id].children|, rules);
  }

  lemma {:induction false} UnchangedChildren(nodes: seq<Node>, id: nat, k: nat, rules: Rules)
    requires IsArena(nodes) && id < |nodes| && !Changes(nodes, id, rules) && k <= |nodes[id].children|
    ensures PlainChildren(nodes, id, k, rules).Some?
    decreases id, k
  {
    if k > 0 {
      UnchangedChildren(nodes, id, k - 1, rules);
      UnchangedIsPlain(nodes, nodes[id].children[k - 1], rules);
    }
  }

  // ----------------------------------------------------- the cached walk

  /** One cached node: what it stands for is the plain rewrite, and it is the node itself exactly when nothing changes. */
  ghost predicate Rewritten(original: seq<Node>, nodes: seq<Node>, id: nat, result: nat, rules: Rules)
    requires IsArena(original) && IsArena(nodes)
  {
    && id < |original| && result < |nodes|
    && Plain(original, id, rules) == Some(Unfold(nodes, result))
    && (if Changes(original, id, rules) then result >= |original| else result == id)
  }

  /** Every cached node is rewritten, and no two nodes became one. */
  ghost predicate CacheRight(original: seq<Node>, nodes: seq<Node>, cache: map<nat, nat>, rules: Rules)
    requires IsArena(original) && IsArena(nodes)
  {
    && (forall id :: id in cache ==> Rewritten(original, nodes, id, cache[id], rules))
    && forall a, b :: a in cache && b in cache && cache[a] == cache[b] ==> a == b
  }

  lemma RewrittenKept(original: seq<Node>, before: seq<Node>, after: seq<Node>, id: nat, result: nat, rules: Rules)
    requires IsArena(original) && IsArena(before) && IsArena(after) && Extends(before, after)
    requires Rewritten(original, before, id, result, rules)
    ensures Rewritten(original, after, id, result, rules)
  {
    UnfoldKept(before, after, result);
  }

  lemma {:induction false} CachedChildren(original: seq<Node>, nodes: seq<Node>, cache: map<nat, nat>, id: nat,
                                          k: nat, rules: Rules)
    requires IsArena(original) && IsArena(nodes) && CacheRight(original, nodes, cache, rules) && id < |original|
    requires k <= |original[id].children| && forall c :: 0 <= c < k ==> original[id].children[c] in cache
    ensures PlainChildren(original, id, k, rules).Some?
    ensures forall c :: 0 <= c < k ==> cache[original[id].children[c]] < |nodes|
    ensures forall c :: 0 <= c < k ==>
      PlainChildren(original, id, k, rules).value[c] == Unfold(nodes, cache[original[id].children[c]])
  {
    hide Changes, Unfold;
    if k > 0 {
      CachedChildren(original, nodes, cache, id, k - 1, rules);
      assert Rewritten(original, nodes, original[id].children[k - 1], cache[original[id].children[k - 1]], rules);
    }
  }

  lemma {:induction false} UnfoldChildrenAre(nodes: seq<Node>, id: nat, k: nat)
    requires IsArena(nodes) && id < |nodes| && k <= |nodes[id].children|
    ensures forall c :: 0 <= c < k ==> UnfoldChildren(nodes, id, k)[c] == Unfold(nodes, nodes[id].children[c])
  {
    hide Unfold;
    if k > 0 { UnfoldChildrenAre(nodes, id, k - 1); }
  }

  lemma CachedIsPlain(original: seq<Node>, nodes: seq<Node>, cache: map<nat, nat>, id: nat, rules: Rules)
    requires IsArena(original) && IsArena(nodes) && CacheRight(original, nodes, cache, rules) && id in cache
    ensures id < |original| && Plain(original, id, rules).Some?
  {
    hide Plain, Unfold, Changes;
    assert Rewritten(original, nodes, id, cache[id], rules);
  }

  lemma CachedIsResized(original: seq<Node>, nodes: seq<Node>, cache: map<nat, nat>, id: nat, rules: Rules)
    requires IsArena(original) && IsArena(nodes) && CacheRight(original, nodes, cache, rules) && id in cache
    ensures id < |original| && cache[id] < |nodes| && IsResized(original, id, Unfold(nodes, cache[id]), rules)
  {
    hide Plain, Unfold, Changes, IsResized;
    assert Rewritten(original, nodes, id, cache[id], rules);
    PlainIsResized(original, id, rules);
  }

  /** One input that cannot be rewritten fails every node over it. */
  lemma {:induction false} FailedChild(nodes: seq<Node>, id: nat, c: nat, k: nat, rules: Rules)
    requires IsArena(nodes) && id < |nodes| && c < k <= |nodes[id].children|
    requires Plain(nodes, nodes[id].children[c], rules).None?
    ensures PlainChildren(nodes, id, k, rules).None?
    ensures Plain(nodes, id, rules).None?
  {
    FailedChildren(nodes, id, c, k, rules);
    FailedChildren(nodes, id, c, |nodes[id].children|, rules);
  }

  lemma {:induction false} FailedChildren(nodes: seq<Node>, id: nat, c: nat, k: nat, rules: Rules)
    requires IsArena(nodes) && id < |nodes| && c < k <= |nodes[id].children|
    requires Plain(nodes, nodes[id].children[c], rules).None?
    ensures PlainChildren(nodes, id, k, rules).None?
  {
    hide Changes, Unfold;
    if c < k - 1 { FailedChildren(nodes, id, c, k - 1, rules); }
  }

  /** The children's results in order. */
  function ResultsOf(n: Node, cache: map<nat, nat>): (r: seq<nat>)
    requires forall c :: 0 <= c < |n.children| ==> n.children[c] in cache
    ensures |r| == |n.children| && forall c :: 0 <= c < |r| ==> r[c] == cache[n.children[c]]
  {
    seq(|n.children|, c requires 0 <= c < |n.children| => cache[n.children[c]])
  }

  function Trees(nodes: seq<Node>, ids: seq<nat>): (ts: seq<Tree>)
    requires IsArena(nodes) && forall c :: 0 <= c < |ids| ==> ids[c] < |nodes|
    ensures |ts| == |ids| && forall c :: 0 <= c < |ids| ==> ts[c] == Unfold(nodes, ids[c])
  {
    seq(|ids|, c requires 0 <= c < |ids| => Unfold(nodes, ids[c]))
  }

  /** Where every input is cached: some input is another node exactly when something below changes. */
  lemma ChangedInputs(original: seq<Node>, nodes: seq<Node>, cache: map<nat, nat>, id: nat, rules: Rules)
    requires IsArena(original) && IsArena(nodes) && CacheRight(original, nodes, cache, rules) && id < |original|
    requires forall c :: 0 <= c < |original[id].children| ==> original[id].children[c] in cache
    ensures Changes(original, id, rules)
       <==> Resized(original[id], id, rules).Some? || exists c :: 0 <= c < |original[id].children| && cache[original[id].children[c]] != original[id].children[c]
    ensures forall c :: 0 <= c < |original[id].children| ==> cache[original[id].children[c]] < |nodes|
    ensures PlainChildren(original, id, |original[id].children|, rules) == Some(Trees(nodes, ResultsOf(original[id], cache)))
  {
    var n := original[id];
    forall c | 0 <= c < |n.children|
      ensures (cache[n.children[c]] != n.children[c]) <==> Changes(original, n.children[c], rules)
      ensures cache[n.children[c]] < |nodes|
    {
      assert Rewritten(original, nodes, n.children[c], cache[n.children[c]], rules);
    }
    CachedChildren(original, nodes, cache, id, |n.children|, rules);
    hide Resized, Unfold, PlainChildren;
    assert PlainChildren(original, id, |n.children|, rules).value == Trees(nodes, ResultsOf(n, cache));
  }

  /** A node nothing below which changes is its own result. */
  lemma KeptNode(original: seq<Node>, nodes: seq<Node>, cache: map<nat, nat>, id: nat, rules: Rules)
    requires IsArena(original) && IsArena(nodes) && Extends(original, nodes)
        && CacheRight(original, nodes, cache, rules)
    requires id < |original| && id !in cache && !Changes(original, id, rules)
    ensures CacheRight(original, nodes, cache[id := id], rules) && Plain(original, id, rules).Some?
  {
    UnchangedIsPlain(original, id, rules);
    UnfoldKept(original, nodes, id);
    hide Plain, Unfold, Changes;
    forall k | k in cache ensures cache[k] != id {
      assert Rewritten(original, nodes, k, cache[k], rules);
    }
  }

  /** A node over other inputs, or of other parameters, is a new node. */
  lemma NewNode(original: seq<Node>, nodes: seq<Node>, cache: map<nat, nat>, id: nat, rebuilt: Node, rules: Rules)
    requires IsArena(original) && IsArena(nodes) && Extends(original, nodes)
        && CacheRight(original, nodes, cache, rules)
    requires id < |original| && id !in cache && Changes(original, id, rules)
    requires forall c :: 0 <= c < |rebuilt.children| ==> rebuilt.children[c] < |nodes|
    requires var children := Trees(nodes, rebuilt.children);
      Plain(original, id, rules) == Some(Tree(rebuilt.op, children, rebuilt.guarantee, rebuilt.timing, rebuilt.materialization))
    ensures IsArena(nodes + [rebuilt]) && Extends(nodes, nodes + [rebuilt])
    ensures CacheRight(original, nodes + [rebuilt], cache[id := |nodes|], rules)
  {
    var grown := nodes + [rebuilt];
    assert IsArena(grown) by {
      forall i, c | 0 <= i < |grown| && 0 <= c < |grown[i].children| ensures grown[i].children[c] < i {
        if i < |nodes| { assert grown[i] == nodes[i]; }
      }
    }
    NewUnfold(nodes, grown, rebuilt);
    hide Plain, Unfold, Changes, IsArena;
    forall k | k in cache ensures Rewritten(original, grown, k, cache[k], rules) && cache[k] < |nodes| {
      assert Rewritten(original, nodes, k, cache[k], rules);
      RewrittenKept(original, nodes, grown, k, cache[k], rules);
    }
  }

  lemma UnfoldIs(nodes: seq<Node>, id: nat)
    requires IsArena(nodes) && id < |nodes|
    ensures var n := nodes[id];
      Unfold(nodes, id) == Tree(n.op, UnfoldChildren(nodes, id, |n.children|), n.guarantee, n.timing, n.materialization)
  {
  }

  lemma NewUnfold(nodes: seq<Node>, grown: seq<Node>, rebuilt: Node)
    requires IsArena(nodes) && IsArena(grown) && Extends(nodes, grown) && |grown| == |nodes| + 1
        && grown[|nodes|] == rebuilt
    requires forall c :: 0 <= c < |rebuilt.children| ==> rebuilt.children[c] < |nodes|
    ensures Unfold(grown, |nodes|)
         == Tree(rebuilt.op, Trees(nodes, rebuilt.children), rebuilt.guarantee, rebuilt.timing, rebuilt.materialization)
  {
    hide *;
    UnfoldIs(grown, |nodes|);
    UnfoldChildrenAre(grown, |nodes|, |rebuilt.children|);
    forall c | 0 <= c < |rebuilt.children|
      ensures UnfoldChildren(grown, |nodes|, |rebuilt.children|)[c] == Trees(nodes, rebuilt.children)[c]
    {
      UnfoldKept(nodes, grown, rebuilt.children[c]);
    }
    assert UnfoldChildren(grown, |nodes|, |rebuilt.children|) == Trees(nodes, rebuilt.children);
  }

  /** The cache and the arena of rewritten nodes. */
  class Rewriter {
    const original: seq<Node>
    const rules: Rules
    var nodes: seq<Node>
    var cache: map<nat, nat>

    ghost predicate Valid()
      reads this
    {
      IsArena(original) && IsArena(nodes) && Extends(original, nodes) && CacheRight(original, nodes, cache, rules)
    }

    constructor (original: seq<Node>, rules: Rules)
      requires IsArena(original)
      ensures Valid() && this.original == original && this.rules == rules && nodes == original && cache == map[]
    {
      this.original := original;
      this.rules := rules;
      nodes := original;
      cache := map[];
    }

    /** The rewritten node of `id`; fails when an operator does not accept its rewritten inputs. */
    method Walk(id: nat) returns (r: Option<nat>)
      requires Valid() && id < |original|
      modifies this
      ensures Valid() && Extends(old(nodes), nodes)
      ensures forall k :: k in old(cache) ==> k in cache && cache[k] == old(cache[k])
      ensures forall k :: k in cache ==> k in old(cache) || k <= id
      ensures r.Some? <==> Plain(original, id, rules).Some?
      ensures r.Some? ==> id in cache && cache[id] == r.value
      ensures r.Some? ==> r.value < |nodes| && IsResized(original, id, Unfold(nodes, r.value), rules)
      decreases id
    {
      hide IsResized, Plain, PlainChildren, Unfold, UnfoldChildren, Changes, Resized, ResizedOp, CacheRight;
      if id in cache {
        CachedIsPlain(original, nodes, cache, id, rules);
        CachedIsResized(original, nodes, cache, id, rules);
        return Some(cache[id]);
      }
      var n := original[id];
      var changed := false;
      for c := 0 to |n.children|
        invariant Valid() && Extends(old(nodes), nodes)
        invariant forall k :: k in old(cache) ==> k in cache && cache[k] == old(cache[k])
        invariant forall k :: k in cache ==> k in old(cache) || k < id
        invariant forall j :: 0 <= j < c ==> n.children[j] in cache
        invariant changed <==> exists j :: 0 <= j < c && cache[n.children[j]] != n.children[j]
      {
        var child := Walk(n.children[c]);
        if child.None? {
          FailedChild(original, id, c, c + 1, rules);
          return None;
        }
        changed := changed || child.value != n.children[c];
      }
      ChangedInputs(original, nodes, cache, id, rules);
      if !changed && Resized(n, id, rules).None? {
        KeptNode(original, nodes, cache, id, rules);
        cache := cache[id := id];
        CachedIsResized(original, nodes, cache, id, rules);
        return Some(id);
      }
      var op, inputs := ResizedOp(n, id, rules), ResultsOf(n, cache);
      var trees := Trees(nodes, inputs);
      PlainOfChanged(original, id, rules, trees);
      if !rules.accepts(op, trees) {
        return None;
      }
      var guarantee := if n.guarantee.Some? then rules.compose(op, trees) else None;
      var rebuilt := Node(op, inputs, guarantee, n.timing, n.materialization);
      NewNode(original, nodes, cache, id, rebuilt, rules);
      r := Some(|nodes|);
      cache := cache[id := |nodes|];
      nodes := nodes + [rebuilt];
      CachedIsResized(original, nodes, cache, id, rules);
    }

    /** Every root's operators rewritten in one cache: one list of results for each. */
    method Rewrite(roots: seq<seq<nat>>) returns (r: Option<seq<seq<nat>>>)
      requires Valid()
      requires forall q, k :: 0 <= q < |roots| && 0 <= k < |roots[q]| ==> roots[q][k] < |original|
      modifies this
      ensures Valid()
      ensures r.Some? <==> forall q, k :: 0 <= q < |roots| && 0 <= k < |roots[q]| ==> Plain(original, roots[q][k], rules).Some?
      ensures r.Some? ==> RootsRewritten(original, nodes, rules, roots, r.value)
    {
      hide IsResized, Plain, PlainChildren, Unfold, UnfoldChildren, Changes, CacheRight;
      var results: seq<seq<nat>> := [];
      for q := 0 to |roots|
        invariant Valid() && |results| == q
        invariant forall p, k :: 0 <= p < q && 0 <= k < |roots[p]| ==> Plain(original, roots[p][k], rules).Some?
        invariant forall p :: 0 <= p < q ==> MappedBy(roots[p], results[p], cache)
      {
        var refs := roots[q];
        var mapped: seq<nat> := [];
        for k := 0 to |refs|
          invariant Valid() && |results| == q && |mapped| == k
          invariant forall j :: 0 <= j < k ==> Plain(original, refs[j], rules).Some?
          invariant MappedBy(refs[..k], mapped, cache)
          invariant forall p :: 0 <= p < q ==> MappedBy(roots[p], results[p], cache)
        {
          var one := Walk(refs[k]);
          if one.None? { return None; }
          mapped := mapped + [one.value];
        }
        assert refs[..|refs|] == refs;
        results := results + [mapped];
      }
      AllRewritten(original, nodes, cache, rules, roots, results);
      r := Some(results);
    }
  }

  predicate MappedBy(refs: seq<nat>, results: seq<nat>, cache: map<nat, nat>) {
    |results| == |refs| && forall k :: 0 <= k < |refs| ==> refs[k] in cache && results[k] == cache[refs[k]]
  }

  /** Each reference stands for the plain rewrite, is kept exactly when nothing it reaches changes, and shared as before. */
  ghost predicate RootsRewritten(original: seq<Node>, nodes: seq<Node>, rules: Rules, roots: seq<seq<nat>>,
                                 results: seq<seq<nat>>)
    requires IsArena(original) && IsArena(nodes)
  {
    && |results| == |roots|
    && (forall q :: 0 <= q < |roots| ==> |results[q]| == |roots[q]|)
    && (forall q, k :: 0 <= q < |roots| && 0 <= k < |roots[q]| ==>
          roots[q][k] < |original| && results[q][k] < |nodes|
          && IsResized(original, roots[q][k], Unfold(nodes, results[q][k]), rules)
          && Plain(original, roots[q][k], rules) == Some(Unfold(nodes, results[q][k]))
          && (results[q][k] == roots[q][k] <==> !Changes(original, roots[q][k], rules)))
    && forall q, k, p, j :: 0 <= q < |roots| && 0 <= k < |roots[q]| && 0 <= p < |roots| && 0 <= j < |roots[p]| ==>
         (results[q][k] == results[p][j] <==> roots[q][k] == roots[p][j])
  }

  lemma AllRewritten(original: seq<Node>, nodes: seq<Node>, cache: map<nat, nat>, rules: Rules, roots: seq<seq<nat>>,
                     results: seq<seq<nat>>)
    requires IsArena(original) && IsArena(nodes) && CacheRight(original, nodes, cache, rules)
    requires |results| == |roots| && forall q :: 0 <= q < |roots| ==> MappedBy(roots[q], results[q], cache)
    ensures RootsRewritten(original, nodes, rules, roots, results)
  {
    hide Plain, Unfold, Changes, IsResized;
    forall q, k | 0 <= q < |roots| && 0 <= k < |roots[q]|
      ensures Rewritten(original, nodes, roots[q][k], results[q][k], rules)
    {
      assert MappedBy(roots[q], results[q], cache);
    }
    forall q, k | 0 <= q < |roots| && 0 <= k < |roots[q]|
      ensures IsResized(original, roots[q][k], Unfold(nodes, results[q][k]), rules)
    {
      assert Rewritten(original, nodes, roots[q][k], results[q][k], rules);
      PlainIsResized(original, roots[q][k], rules);
    }
    forall q, k, p, j | 0 <= q < |roots| && 0 <= k < |roots[q]| && 0 <= p < |roots| && 0 <= j < |roots[p]|
      ensures results[q][k] == results[p][j] <==> roots[q][k] == roots[p][j]
    {
      assert MappedBy(roots[q], results[q], cache) && MappedBy(roots[p], results[p], cache);
    }
  }

  lemma PlainOfChanged(original: seq<Node>, id: nat, rules: Rules, trees: seq<Tree>)
    requires IsArena(original) && id < |original| && Changes(original, id, rules)
    requires PlainChildren(original, id, |original[id].children|, rules) == Some(trees)
    ensures var n := original[id];
      var op := ResizedOp(n, id, rules);
      Plain(original, id, rules)
        == if !rules.accepts(op, trees) then None
           else Some(Tree(op, trees, if n.guarantee.Some? then rules.compose(op, trees) else None, n.timing, n.materialization))
  {
    hide PlainChildren, Changes, ResizedOp, Unfold;
  }
}
