/**
 * The control-flow graph: nodes that each hold a basic block and an optional
 * left child (the fall-through successor) and right child (the jump target).
 * Back edges and self-loops are allowed.
 *
 * The nodes live in an arena, `ControlFlowGraph.nodes`, and a child is named
 * by its position there. The parser creates node `i` with key `i` as the
 * `i`-th element of its node list, so the position doubles as the node's key.
 */
module Graph {
  import opened Wrappers
  import opened Text
  import opened LinkedMaps
  import opened Blocks

  datatype CFNode = CFNode(block: BasicBlock, left: Option<nat>, right: Option<nat>)

  /** The keys of `n`'s children: the left child's first, then the right child's. */
  function Children(n: CFNode): (r: seq<nat>)
    ensures n.left.Some? && n.right.Some? ==> r == [n.left.value, n.right.value]
    ensures n.left.None? && n.right.None? ==> r == []
    ensures n.left.Some? != n.right.Some? ==> |r| == 1
    ensures forall c :: c in r <==> Some(c) == n.left || Some(c) == n.right
  {
    (if n.left.Some? then [n.left.value] else []) + (if n.right.Some? then [n.right.value] else [])
  }

  /** Both children of `n`, where present, are below `size`. */
  predicate ChildrenBelow(n: CFNode, size: nat) {
    (n.left.Some? ==> n.left.value < size) && (n.right.Some? ==> n.right.value < size)
  }

  /** Every child names a node of the arena. */
  ghost predicate ClosedArena(nodes: seq<CFNode>) {
    forall h :: 0 <= h < |nodes| ==> ChildrenBelow(nodes[h], |nodes|)
  }

  /** `c` is the left or the right child of `n`. */
  predicate IsChild(n: CFNode, c: nat) {
    n.left == Some(c) || n.right == Some(c)
  }

  /** `p` is a walk along left/right edges. */
  ghost predicate IsPath(nodes: seq<CFNode>, p: seq<nat>) {
    |p| >= 1
    && (forall i :: 0 <= i < |p| ==> p[i] < |nodes|)
    && (forall i :: 0 <= i < |p| - 1 ==> IsChild(nodes[p[i]], p[i + 1]))
  }

  /** `to` can be reached from `from` by following children, in zero or more steps. */
  ghost predicate Reachable(nodes: seq<CFNode>, from: nat, to: nat) {
    exists p :: IsPath(nodes, p) && p[0] == from && p[|p| - 1] == to
  }

  lemma ReachableSelf(nodes: seq<CFNode>, h: nat)
    requires h < |nodes|
    ensures Reachable(nodes, h, h)
  {
    assert IsPath(nodes, [h]);
  }

  lemma ReachableStep(nodes: seq<CFNode>, from: nat, h: nat, c: nat)
    requires Reachable(nodes, from, h) && h < |nodes| && c < |nodes| && IsChild(nodes[h], c)
    ensures Reachable(nodes, from, c)
  {
    var p :| IsPath(nodes, p) && p[0] == from && p[|p| - 1] == h;
    assert IsPath(nodes, p + [c]);
    assert (p + [c])[0] == from;
  }

  /** The child `find` moves to from `n`: the left one if there is one, else the right one. */
  function Descend(n: CFNode): (r: Option<nat>)
    ensures r.None? <==> Children(n) == []
    ensures r.Some? ==> IsChild(n, r.value) && (n.left.Some? ==> r == n.left)
  {
    if n.left.Some? then n.left else n.right
  }

  /** `p` is a walk that takes, at every node, the child `Descend` picks. */
  ghost predicate DescentPath(nodes: seq<CFNode>, p: seq<nat>) {
    |p| >= 1
    && (forall i :: 0 <= i < |p| ==> p[i] < |nodes|)
    && (forall i :: 0 <= i < |p| - 1 ==> Descend(nodes[p[i]]) == Some(p[i + 1]))
  }

  /** Some descent path from `h` of at most `bound` nodes ends at `x`. */
  ghost predicate DescendsWithin(nodes: seq<CFNode>, h: nat, bound: nat, x: nat) {
    exists p :: DescentPath(nodes, p) && p[0] == h && |p| <= bound && p[|p| - 1] == x
  }

  /** A descent from `Descend`'s child is one from `h`, one node longer. */
  lemma DescendsWithinStep(nodes: seq<CFNode>, h: nat, c: nat, bound: nat, x: nat)
    requires h < |nodes| && Descend(nodes[h]) == Some(c) && DescendsWithin(nodes, c, bound, x)
    ensures DescendsWithin(nodes, h, bound + 1, x)
  {
    var p :| DescentPath(nodes, p) && p[0] == c && |p| <= bound && p[|p| - 1] == x;
    DescentCons(nodes, h, p);
    var q := [h] + p;
    assert q[0] == h && |q| <= bound + 1 && q[|q| - 1] == x;
  }

  /** A descent path stays one when the node `Descend` leaves for its first node is put in front. */
  lemma DescentCons(nodes: seq<CFNode>, h: nat, p: seq<nat>)
    requires DescentPath(nodes, p) && h < |nodes| && Descend(nodes[h]) == Some(p[0])
    ensures DescentPath(nodes, [h] + p)
  {
    var q := [h] + p;
    forall i | 0 <= i < |q| - 1
      ensures Descend(nodes[q[i]]) == Some(q[i + 1])
    {
      if i > 0 {
        assert q[i] == p[i - 1] && q[i + 1] == p[i];
      }
    }
  }

  /** A subset has no more elements than the set around it. */
  lemma {:induction false} SubsetCard<T>(a: set<T>, b: set<T>)
    requires a <= b
    ensures |a| <= |b|
    decreases |a|
  {
    if a != {} {
      var x :| x in a;
      SubsetCard(a - {x}, b - {x});
    }
  }

  /** A walk with more steps than there are nodes visits some node twice. */
  lemma Pigeonhole(nodes: seq<CFNode>, p: seq<nat>)
    requires |p| > |nodes| && forall i :: 0 <= i < |p| ==> p[i] < |nodes|
    ensures exists i, j :: 0 <= i < j < |p| && p[i] == p[j]
  {
    if !exists i, j :: 0 <= i < j < |p| && p[i] == p[j] {
      var all := Handles(|nodes|);
      assert Distinct(p) by {
        forall i, j | 0 <= i < j < |p| ensures Apart(p, i, j) {
        }
      }
      assert Distinct(all) by {
        forall i, j | 0 <= i < j < |all| ensures Apart(all, i, j) {
        }
      }
      DistinctCard(p);
      DistinctCard(all);
      var seen: set<nat> := set x | x in p;
      var below: set<nat> := set x | x in all;
      forall x | x in seen ensures x in below {
        var i :| 0 <= i < |p| && p[i] == x;
        assert all[x] == x;
      }
      assert |seen| == |p| && |below| == |nodes|;
      SubsetCard(seen, below);
      assert false;
    }
  }

  /** Every element of `s` is a node reachable from `root`. */
  ghost predicate AllReachable(nodes: seq<CFNode>, root: nat, s: seq<nat>) {
    forall i :: 0 <= i < |s| ==> s[i] < |nodes| && Reachable(nodes, root, s[i])
  }

  /** Each child of `n` has been visited or is waiting in the queue. */
  predicate ChildrenSeen(n: CFNode, visited: seq<nat>, queue: seq<nat>) {
    (n.left.Some? ==> n.left.value in visited || n.left.value in queue)
    && (n.right.Some? ==> n.right.value in visited || n.right.value in queue)
  }

  /**
   * The state of a breadth-first traversal from `root` with a queue and a
   * visited list: everything seen is reachable, nothing is visited twice, and
   * every child of a visited node is visited or waiting in the queue.
   */
  ghost predicate BfsInvariant(nodes: seq<CFNode>, root: nat, visited: seq<nat>, queue: seq<nat>) {
    root < |nodes| && ClosedArena(nodes)
    && Distinct(visited)
    && AllReachable(nodes, root, visited)
    && AllReachable(nodes, root, queue)
    && (root in visited || root in queue)
    && (visited == [] ==> queue == [root])
    && (visited != [] ==> visited[0] == root)
    && forall i :: 0 <= i < |visited| ==> ChildrenSeen(nodes[visited[i]], visited, queue)
  }

  /** The handles `0 .. n-1`. */
  function Handles(n: nat): (r: seq<nat>)
    ensures |r| == n && forall i :: 0 <= i < n ==> r[i] == i
  {
    seq(n, i requires 0 <= i < n => i)
  }

  /** The nodes not yet visited; it shrinks with every newly visited node. */
  ghost function Unvisited(nodes: seq<CFNode>, visited: seq<nat>): set<nat> {
    (set h | h in Handles(|nodes|)) - (set h | h in visited)
  }

  lemma UnvisitedShrinks(nodes: seq<CFNode>, visited: seq<nat>, x: nat)
    requires x < |nodes| && x !in visited
    ensures |Unvisited(nodes, visited + [x])| < |Unvisited(nodes, visited)|
  {
    assert Handles(|nodes|)[x] == x;
    assert (set h | h in visited + [x]) == (set h | h in visited) + {x};
    assert Unvisited(nodes, visited) == Unvisited(nodes, visited + [x]) + {x};
  }

  lemma BfsStart(nodes: seq<CFNode>, root: nat)
    requires root < |nodes| && ClosedArena(nodes)
    ensures BfsInvariant(nodes, root, [], [root])
  {
    ReachableSelf(nodes, root);
  }

  /** Popping a node that was already visited keeps the invariant. */
  lemma BfsSkip(nodes: seq<CFNode>, root: nat, visited: seq<nat>, queue: seq<nat>)
    requires BfsInvariant(nodes, root, visited, queue) && queue != [] && queue[0] in visited
    ensures BfsInvariant(nodes, root, visited, queue[1..])
  {
    assert forall h :: h in queue ==> h == queue[0] || h in queue[1..];
    forall i | 0 <= i < |visited|
      ensures ChildrenSeen(nodes[visited[i]], visited, queue[1..])
    {
      assert ChildrenSeen(nodes[visited[i]], visited, queue);
    }
  }

  /** Visiting a new node and queueing its children keeps the invariant and shrinks `Unvisited`. */
  lemma BfsVisit(nodes: seq<CFNode>, root: nat, visited: seq<nat>, queue: seq<nat>)
    requires BfsInvariant(nodes, root, visited, queue) && queue != [] && queue[0] !in visited
    ensures queue[0] < |nodes|
    ensures BfsInvariant(nodes, root, visited + [queue[0]], queue[1..] + Children(nodes[queue[0]]))
    ensures |Unvisited(nodes, visited + [queue[0]])| < |Unvisited(nodes, visited)|
  {
    var x := queue[0];
    VisitQueueReachable(nodes, root, queue);
    VisitChildrenSeen(nodes, visited, queue);
    VisitVisited(nodes, root, visited, queue);
    UnvisitedShrinks(nodes, visited, x);
  }

  lemma VisitVisited(nodes: seq<CFNode>, root: nat, visited: seq<nat>, queue: seq<nat>)
    requires BfsInvariant(nodes, root, visited, queue) && queue != [] && queue[0] !in visited
    ensures Distinct(visited + [queue[0]]) && AllReachable(nodes, root, visited + [queue[0]])
    ensures root in visited + [queue[0]] || root in queue[1..]
    ensures (visited + [queue[0]])[0] == root
  {
    var x := queue[0];
    assert forall h :: h in queue ==> h == x || h in queue[1..];
    assert AllReachable(nodes, root, queue);
    var visited' := visited + [x];
    DistinctSnoc(visited, x);
    forall i | 0 <= i < |visited'|
      ensures visited'[i] < |nodes| && Reachable(nodes, root, visited'[i])
    {
      if i == |visited| {
        assert visited'[i] == queue[0];
      }
    }
  }

  lemma VisitQueueReachable(nodes: seq<CFNode>, root: nat, queue: seq<nat>)
    requires ClosedArena(nodes) && queue != [] && AllReachable(nodes, root, queue)
    ensures queue[0] < |nodes|
    ensures AllReachable(nodes, root, queue[1..] + Children(nodes[queue[0]]))
  {
    var x := queue[0];
    var n := nodes[x];
    var queue' := queue[1..] + Children(n);
    assert ChildrenBelow(n, |nodes|);
    forall i | 0 <= i < |queue'|
      ensures queue'[i] < |nodes| && Reachable(nodes, root, queue'[i])
    {
      if i < |queue| - 1 {
        assert queue'[i] == queue[i + 1];
      } else {
        assert queue'[i] in Children(n);
        ReachableStep(nodes, root, x, queue'[i]);
      }
    }
  }

  lemma VisitChildrenSeen(nodes: seq<CFNode>, visited: seq<nat>, queue: seq<nat>)
    requires queue != [] && queue[0] < |nodes|
    requires forall i :: 0 <= i < |visited| ==> visited[i] < |nodes| && ChildrenSeen(nodes[visited[i]], visited, queue)
    ensures forall i :: 0 <= i < |visited| + 1 ==>
      ChildrenSeen(nodes[(visited + [queue[0]])[i]], visited + [queue[0]], queue[1..] + Children(nodes[queue[0]]))
  {
    var x := queue[0];
    var n := nodes[x];
    var visited' := visited + [x];
    var queue' := queue[1..] + Children(n);
    assert forall h :: h in queue ==> h == x || h in queue[1..];
    forall i | 0 <= i < |visited'|
      ensures ChildrenSeen(nodes[visited'[i]], visited', queue')
    {
      if i < |visited| {
        assert ChildrenSeen(nodes[visited[i]], visited, queue);
      } else {
        assert n.left.Some? ==> n.left.value in Children(n);
        assert n.right.Some? ==> n.right.value in Children(n);
      }
    }
  }

  /** When the queue runs empty, the visited nodes are exactly the reachable ones. */
  lemma BfsDone(nodes: seq<CFNode>, root: nat, visited: seq<nat>)
    requires BfsInvariant(nodes, root, visited, [])
    ensures forall h :: h in visited <==> Reachable(nodes, root, h)
  {
    forall h | Reachable(nodes, root, h)
      ensures h in visited
    {
      var p :| IsPath(nodes, p) && p[0] == root && p[|p| - 1] == h;
      var i := 0;
      while i < |p| - 1
        invariant 0 <= i < |p| && p[i] in visited
      {
        assert IsChild(nodes[p[i]], p[i + 1]);
        var j :| 0 <= j < |visited| && visited[j] == p[i];
        assert ChildrenSeen(nodes[visited[j]], visited, []);
        i := i + 1;
      }
    }
  }

  /** The blocks the arena's nodes hold. */
  ghost function BlocksOf(nodes: seq<CFNode>): set<BasicBlock> {
    set h | 0 <= h < |nodes| :: nodes[h].block
  }

  /** The statements of every node's block. */
  ghost function Codes(nodes: seq<CFNode>): (codes: seq<Code>)
    reads BlocksOf(nodes)
    ensures |codes| == |nodes| && forall h :: 0 <= h < |nodes| ==> codes[h] == nodes[h].block.code
  {
    seq(|nodes|, h requires 0 <= h < |nodes| reads BlocksOf(nodes) => nodes[h].block.code)
  }

  /** The text of every node's block, as `BasicBlock.toString` prints it. */
  function BlockTexts(nodes: seq<CFNode>): (texts: seq<string>)
    reads BlocksOf(nodes)
    ensures |texts| == |nodes|
    ensures forall h :: 0 <= h < |nodes| ==> texts[h] == Render(nodes[h].block.code)
  {
    seq(|nodes|, h requires 0 <= h < |nodes| reads BlocksOf(nodes) => Render(nodes[h].block.code))
  }

  /** The order `PrintFrom` prints the sections in: every reachable node once, from `root`, nearest first. */
  lemma PrintedOrder(nodes: seq<CFNode>, root: nat, order: seq<nat>)
    requires BfsInvariant(nodes, root, order, []) && order == BfsWalk(nodes, [], [root])
    ensures Distinct(order) && |order| >= 1 && order[0] == root
    ensures forall h :: h in order <==> Reachable(nodes, root, h)
    ensures forall i :: 0 <= i < |order| ==> order[i] < |nodes|
    ensures NearestFirst(nodes, root, order)
  {
    BfsDone(nodes, root, order);
    BfsNearestFirst(nodes, root);
  }

  /** The text `toString` prints for a child: its block's text, or `null` and a newline. */
  function ChildText(texts: seq<string>, c: Option<nat>): string {
    if c.None? then "null\n" else if c.value < |texts| then texts[c.value] else ""
  }

  /** The section `toString` prints for node `h`, given the text of every block. */
  function Section(nodes: seq<CFNode>, texts: seq<string>, h: nat): string
    requires |texts| == |nodes| && h < |nodes|
  {
    "BLOCK " + IntToString(h) + "\n" + texts[h]
    + "\nLEFT\n" + ChildText(texts, nodes[h].left)
    + "\nRIGHT\n" + ChildText(texts, nodes[h].right)
    + "\n===============================\n"
  }

  /** The sections of the nodes in `order`, one after another. */
  function Sections(nodes: seq<CFNode>, texts: seq<string>, order: seq<nat>): string
    requires |texts| == |nodes|
  {
    if order == [] then ""
    else if order[|order| - 1] < |nodes| then
      Sections(nodes, texts, order[..|order| - 1]) + Section(nodes, texts, order[|order| - 1])
    else Sections(nodes, texts, order[..|order| - 1])
  }

  /**
   * The walk of `toString`: a breadth-first walk from `root` that prints
   * each node it reaches once, in the order the nodes leave the queue.
   */
  method PrintFrom(nodes: seq<CFNode>, root: nat, texts: seq<string>) returns (content: string, visited: seq<nat>)
    requires root < |nodes| && ClosedArena(nodes) && |texts| == |nodes|
    ensures content == Sections(nodes, texts, visited)
    ensures visited == BfsWalk(nodes, [], [root])
    ensures Distinct(visited) && |visited| >= 1 && visited[0] == root
    ensures forall h :: h in visited <==> Reachable(nodes, root, h)
    ensures forall i :: 0 <= i < |visited| ==> visited[i] < |nodes|
    ensures NearestFirst(nodes, root, visited)
  {
    content := "";
    var queue: seq<nat> := [root];
    visited := [];
    BfsStart(nodes, root);
    while queue != []
      invariant BfsInvariant(nodes, root, visited, queue)
      invariant BfsWalk(nodes, visited, queue) == BfsWalk(nodes, [], [root])
      invariant content == Sections(nodes, texts, visited)
      decreases |Unvisited(nodes, visited)|, |queue|
    {
      var current := queue[0];
      if current in visited {
        BfsSkip(nodes, root, visited, queue);
        queue := queue[1..];
      } else {
        BfsVisit(nodes, root, visited, queue);
        content := content + Section(nodes, texts, current);
        SectionsSnoc(nodes, texts, visited, current);
        queue := queue[1..] + Children(nodes[current]);
        visited := visited + [current];
      }
    }
    PrintedOrder(nodes, root, visited);
  }

  lemma SectionsSnoc(nodes: seq<CFNode>, texts: seq<string>, order: seq<nat>, h: nat)
    requires |texts| == |nodes| && h < |nodes|
    ensures Sections(nodes, texts, order + [h]) == Sections(nodes, texts, order) + Section(nodes, texts, h)
  {
    assert (order + [h])[..|order|] == order;
  }

  /**
   * The order in which the queue walk of `toString` and `compactGraph` takes
   * nodes for the first time, from the state `visited`, `queue`: pop the
   * head; skip it when already taken, else take it and queue its children,
   * the left one first.
   */
  ghost function BfsWalk(nodes: seq<CFNode>, visited: seq<nat>, queue: seq<nat>): (r: seq<nat>)
    requires ClosedArena(nodes) && forall i :: 0 <= i < |queue| ==> queue[i] < |nodes|
    ensures visited <= r
    decreases |Unvisited(nodes, visited)|, |queue|
  {
    if queue == [] then visited
    else if queue[0] in visited then BfsWalk(nodes, visited, queue[1..])
    else
      var x := queue[0];
      assert ChildrenBelow(nodes[x], |nodes|);
      UnvisitedShrinks(nodes, visited, x);
      BfsWalk(nodes, visited + [x], queue[1..] + Children(nodes[x]))
  }

  /** The children of the nodes of `s`. */
  ghost function ChildrenOf(nodes: seq<CFNode>, s: set<nat>): set<nat> {
    (set u | u in s && u < |nodes| && nodes[u].left.Some? :: nodes[u].left.value)
    + (set u | u in s && u < |nodes| && nodes[u].right.Some? :: nodes[u].right.value)
  }

  /** The nodes that can be reached from `root` in at most `d` steps. */
  ghost function WithinSteps(nodes: seq<CFNode>, root: nat, d: nat): set<nat> {
    if d == 0 then {root}
    else WithinSteps(nodes, root, d - 1) + ChildrenOf(nodes, WithinSteps(nodes, root, d - 1))
  }

  /** No node of `order` is nearer to `root` than a node listed before it. */
  ghost predicate NearestFirst(nodes: seq<CFNode>, root: nat, order: seq<nat>) {
    forall i, j, d: nat :: 0 <= i < j < |order| && order[j] in WithinSteps(nodes, root, d) ==>
      order[i] in WithinSteps(nodes, root, d)
  }
  /** `NearestFirst` built up node by node: the last node is no nearer than any before it, and so on. */
  ghost predicate LastNoNearer(nodes: seq<CFNode>, root: nat, order: seq<nat>)
    decreases |order|
  {
    order != [] ==>
      LastNoNearer(nodes, root, order[..|order| - 1])
      && forall i, d: nat :: 0 <= i < |order| - 1 && order[|order| - 1] in WithinSteps(nodes, root, d) ==>
        order[i] in WithinSteps(nodes, root, d)
  }

  lemma {:induction false} LastNoNearerPairs(nodes: seq<CFNode>, root: nat, order: seq<nat>)
    requires LastNoNearer(nodes, root, order)
    ensures NearestFirst(nodes, root, order)
    decreases |order|
  {
    if order != [] {
      var front := order[..|order| - 1];
      LastNoNearerPairs(nodes, root, front);
      forall i, j, d: nat | 0 <= i < j < |order| && order[j] in WithinSteps(nodes, root, d)
        ensures order[i] in WithinSteps(nodes, root, d)
      {
        if j < |order| - 1 {
          assert front[i] == order[i] && front[j] == order[j];
        }
      }
    }
  }


  lemma {:induction false} WithinStepsGrow(nodes: seq<CFNode>, root: nat, d: nat, e: nat)
    requires d <= e
    ensures WithinSteps(nodes, root, d) <= WithinSteps(nodes, root, e)
    decreases e
  {
    if d < e {
      WithinStepsGrow(nodes, root, d, e - 1);
      forall x | x in WithinSteps(nodes, root, d)
        ensures x in WithinSteps(nodes, root, e)
      {
        assert x in WithinSteps(nodes, root, e - 1);
      }
    }
  }

  /** `queue[..m]` holds nodes within `level` steps of `root`, the rest nodes within `level + 1`. */
  ghost predicate QueueLevels(nodes: seq<CFNode>, root: nat, queue: seq<nat>, level: nat, m: nat) {
    m <= |queue|
    && (forall i :: 0 <= i < |queue| ==> queue[i] < |nodes|)
    && (forall i :: 0 <= i < m ==> queue[i] in WithinSteps(nodes, root, level))
    && (forall i :: m <= i < |queue| ==> queue[i] in WithinSteps(nodes, root, level + 1))
  }

  /**
   * Everything taken is within `level` steps; the first `k` nodes taken
   * include every node within `level - 1` steps, and their children were
   * taken or wait among `queue[..m]`.
   */
  ghost predicate TakenLevels(nodes: seq<CFNode>, root: nat, visited: seq<nat>, queue: seq<nat>, level: nat, m: nat, k: nat)
    requires m <= |queue|
  {
    k <= |visited|
    && (forall i :: 0 <= i < |visited| ==> visited[i] < |nodes| && visited[i] in WithinSteps(nodes, root, level))
    && (forall i {:trigger nodes[visited[i]]} :: 0 <= i < k ==> ChildrenSeen(nodes[visited[i]], visited, queue[..m]))
    && (level == 0 ==> k == 0 && (root in visited || root in queue[..m]))
    && (level > 0 ==> forall h :: h in WithinSteps(nodes, root, level - 1) ==> h in visited[..k])
  }

  /** Every child of a taken node was taken or waits in the queue. */
  ghost predicate AllChildrenSeen(nodes: seq<CFNode>, visited: seq<nat>, queue: seq<nat>) {
    forall i {:trigger nodes[visited[i]]} :: 0 <= i < |visited| ==>
      visited[i] < |nodes| && ChildrenSeen(nodes[visited[i]], visited, queue)
  }

  /** The walk in the middle of level `level`, taking nodes nearest-first so far. */
  ghost predicate LevelState(nodes: seq<CFNode>, root: nat, visited: seq<nat>, queue: seq<nat>, level: nat, m: nat, k: nat) {
    root < |nodes| && ClosedArena(nodes)
    && QueueLevels(nodes, root, queue, level, m)
    && TakenLevels(nodes, root, visited, queue, level, m, k)
    && AllChildrenSeen(nodes, visited, queue)
    && LastNoNearer(nodes, root, visited)
  }

  /** When the nodes of the current level have left the queue, the next level begins. */
  lemma NextLevel(nodes: seq<CFNode>, root: nat, visited: seq<nat>, queue: seq<nat>, level: nat, k: nat)
      returns (level': nat, m': nat, k': nat)
    requires LevelState(nodes, root, visited, queue, level, 0, k)
    ensures level' == level + 1 && m' == |queue| && k' == |visited|
    ensures LevelState(nodes, root, visited, queue, level', m', k')
  {
    level', m', k' := level + 1, |queue|, |visited|;
    NextQueueLevels(nodes, root, queue, level);
    NextTakenLevels(nodes, root, visited, queue, level, k);
  }

  lemma NextQueueLevels(nodes: seq<CFNode>, root: nat, queue: seq<nat>, level: nat)
    requires QueueLevels(nodes, root, queue, level, 0)
    ensures QueueLevels(nodes, root, queue, level + 1, |queue|)
  {
  }

  lemma NextTakenLevels(nodes: seq<CFNode>, root: nat, visited: seq<nat>, queue: seq<nat>, level: nat, k: nat)
    requires TakenLevels(nodes, root, visited, queue, level, 0, k)
    requires AllChildrenSeen(nodes, visited, queue)
    ensures TakenLevels(nodes, root, visited, queue, level + 1, |queue|, |visited|)
  {
    assert queue[..|queue|] == queue;
    assert visited[..|visited|] == visited;
    assert queue[..0] == [];
    WithinStepsGrow(nodes, root, level, level + 1);
    LevelCovered(nodes, root, visited, level, k);
  }

  /** When every node within `level - 1` steps is among the first `k` taken, and their children are all taken, every node within `level` steps is taken. */
  lemma LevelCovered(nodes: seq<CFNode>, root: nat, visited: seq<nat>, level: nat, k: nat)
    requires k <= |visited|
    requires forall i {:trigger nodes[visited[i]]} :: 0 <= i < k ==> visited[i] < |nodes| && ChildrenSeen(nodes[visited[i]], visited, [])
    requires level == 0 ==> root in visited
    requires level > 0 ==> forall h :: h in WithinSteps(nodes, root, level - 1) ==> h in visited[..k]
    ensures forall h :: h in WithinSteps(nodes, root, level) ==> h in visited
  {
    forall h | h in WithinSteps(nodes, root, level)
      ensures h in visited
    {
      if level == 0 {
        assert h == root;
      } else if h !in WithinSteps(nodes, root, level - 1) {
        var u :| u in WithinSteps(nodes, root, level - 1) && u < |nodes| && (nodes[u].left == Some(h) || nodes[u].right == Some(h));
        assert u in visited[..k];
        var i :| 0 <= i < k && visited[i] == u;
        assert ChildrenSeen(nodes[visited[i]], visited, []);
      } else {
        assert h in visited[..k];
      }
    }
  }

  /** Popping a node already taken keeps the level state. */
  lemma SkipInLevel(nodes: seq<CFNode>, root: nat, visited: seq<nat>, queue: seq<nat>, level: nat, m: nat, k: nat)
      returns (queue': seq<nat>, m': nat)
    requires LevelState(nodes, root, visited, queue, level, m, k) && 0 < m && queue[0] in visited
    ensures queue' == queue[1..] && m' == m - 1
    ensures LevelState(nodes, root, visited, queue', level, m', k)
  {
    queue', m' := queue[1..], m - 1;
    var x := queue[0];
    assert forall h :: h in queue ==> h == x || h in queue[1..];
    assert forall h :: h in queue[..m] ==> h == x || h in queue[1..][..m - 1];
    forall i | 0 <= i < |visited|
      ensures ChildrenSeen(nodes[visited[i]], visited, queue[1..])
    {
      assert ChildrenSeen(nodes[visited[i]], visited, queue);
    }
    forall i | 0 <= i < k
      ensures ChildrenSeen(nodes[visited[i]], visited, queue[1..][..m - 1])
    {
      assert ChildrenSeen(nodes[visited[i]], visited, queue[..m]);
    }
  }

  /** Taking a new node from the current level keeps the level state. */
  lemma TakeInLevel(nodes: seq<CFNode>, root: nat, visited: seq<nat>, queue: seq<nat>, level: nat, m: nat, k: nat)
      returns (visited': seq<nat>, queue': seq<nat>, m': nat)
    requires LevelState(nodes, root, visited, queue, level, m, k) && 0 < m && queue[0] !in visited
    ensures ChildrenBelow(nodes[queue[0]], |nodes|)
    ensures visited' == visited + [queue[0]] && queue' == queue[1..] + Children(nodes[queue[0]]) && m' == m - 1
    ensures LevelState(nodes, root, visited', queue', level, m', k)
  {
    var x := queue[0];
    visited', queue', m' := visited + [x], queue[1..] + Children(nodes[x]), m - 1;
    assert ChildrenBelow(nodes[x], |nodes|);
    TakeQueueLevels(nodes, root, queue, level, m);
    TakeTakenLevels(nodes, root, visited, queue, level, m, k);
    VisitChildrenSeen(nodes, visited, queue);
    TakeNearestFirst(nodes, root, visited, x, level, k);
  }

  lemma TakeQueueLevels(nodes: seq<CFNode>, root: nat, queue: seq<nat>, level: nat, m: nat)
    requires ClosedArena(nodes) && QueueLevels(nodes, root, queue, level, m) && 0 < m
    ensures ChildrenBelow(nodes[queue[0]], |nodes|)
    ensures QueueLevels(nodes, root, queue[1..] + Children(nodes[queue[0]]), level, m - 1)
  {
    var x := queue[0];
    var queue' := queue[1..] + Children(nodes[x]);
    assert ChildrenBelow(nodes[x], |nodes|);
    assert x in WithinSteps(nodes, root, level);
    assert forall c :: c in Children(nodes[x]) ==> c in WithinSteps(nodes, root, level + 1);
    forall i | m - 1 <= i < |queue'|
      ensures queue'[i] in WithinSteps(nodes, root, level + 1)
    {
      if i < |queue| - 1 {
        assert queue'[i] == queue[i + 1];
      } else {
        assert queue'[i] in Children(nodes[x]);
      }
    }
  }

  lemma TakeTakenLevels(nodes: seq<CFNode>, root: nat, visited: seq<nat>, queue: seq<nat>, level: nat, m: nat, k: nat)
    requires ClosedArena(nodes) && QueueLevels(nodes, root, queue, level, m) && 0 < m
    requires TakenLevels(nodes, root, visited, queue, level, m, k) && queue[0] !in visited
    ensures ChildrenBelow(nodes[queue[0]], |nodes|)
    ensures TakenLevels(nodes, root, visited + [queue[0]], queue[1..] + Children(nodes[queue[0]]), level, m - 1, k)
  {
    var x := queue[0];
    var visited', queue' := visited + [x], queue[1..] + Children(nodes[x]);
    assert ChildrenBelow(nodes[x], |nodes|);
    assert queue'[..m - 1] == queue[1..m];
    assert forall h :: h in queue[..m] ==> h == x || h in queue[1..m];
    forall i | 0 <= i < k
      ensures ChildrenSeen(nodes[visited'[i]], visited', queue'[..m - 1])
    {
      assert ChildrenSeen(nodes[visited[i]], visited, queue[..m]);
    }
    if level > 0 {
      assert visited'[..k] == visited[..k];
    }
  }

  /** A node of the current level that was not taken yet is no nearer than any node taken. */
  lemma TakeNearestFirst(nodes: seq<CFNode>, root: nat, visited: seq<nat>, x: nat, level: nat, k: nat)
    requires k <= |visited| && LastNoNearer(nodes, root, visited) && x !in visited
    requires forall i :: 0 <= i < |visited| ==> visited[i] in WithinSteps(nodes, root, level)
    requires level > 0 ==> forall h :: h in WithinSteps(nodes, root, level - 1) ==> h in visited[..k]
    ensures LastNoNearer(nodes, root, visited + [x])
  {
    var order := visited + [x];
    assert x !in visited[..k];
    assert order[..|order| - 1] == visited;
    forall i, d: nat | 0 <= i < |visited| && x in WithinSteps(nodes, root, d)
      ensures visited[i] in WithinSteps(nodes, root, d)
    {
      NotTakenIsFar(nodes, root, visited[..k], x, level, d);
      WithinStepsGrow(nodes, root, level, d);
    }
  }

  /** A node not among `taken`, which holds every node within `level - 1` steps, is at least `level` steps from `root`. */
  lemma NotTakenIsFar(nodes: seq<CFNode>, root: nat, taken: seq<nat>, x: nat, level: nat, d: nat)
    requires x !in taken
    requires level > 0 ==> forall h :: h in WithinSteps(nodes, root, level - 1) ==> h in taken
    ensures x in WithinSteps(nodes, root, d) ==> level <= d
  {
    if d < level {
      WithinStepsGrow(nodes, root, d, level - 1);
    }
  }

  /** The graph 0 -> 1, 2 and 1 -> 3, every node holding `b`. */
  function SampleTree(b: BasicBlock): (nodes: seq<CFNode>)
    ensures |nodes| == 4 && ClosedArena(nodes)
  {
    [CFNode(b, Some(1), Some(2)), CFNode(b, Some(3), None), CFNode(b, None, None), CFNode(b, None, None)]
  }

  /** One step of the walk that takes the head of the queue. */
  lemma WalkTakes(nodes: seq<CFNode>, visited: seq<nat>, x: nat, rest: seq<nat>)
    requires ClosedArena(nodes) && x < |nodes| && x !in visited
    requires forall i :: 0 <= i < |rest| ==> rest[i] < |nodes|
    ensures forall i :: 0 <= i < |rest + Children(nodes[x])| ==> (rest + Children(nodes[x]))[i] < |nodes|
    ensures BfsWalk(nodes, visited, [x] + rest) == BfsWalk(nodes, visited + [x], rest + Children(nodes[x]))
  {
    assert ([x] + rest)[0] == x && ([x] + rest)[1..] == rest;
    assert ChildrenBelow(nodes[x], |nodes|);
  }

  /** On that graph the walk from 0 takes the nodes in the order 0, 1, 2, 3. */
  lemma WalkOfSampleTree(b: BasicBlock)
    ensures BfsWalk(SampleTree(b), [], [0]) == [0, 1, 2, 3]
  {
    var nodes := SampleTree(b);
    WalkTakes(nodes, [], 0, []);
    assert [] + [0] == [0] && [] + Children(nodes[0]) == [1, 2];
    WalkOfSampleTreeFrom1(b);
  }

  lemma WalkOfSampleTreeFrom1(b: BasicBlock)
    ensures BfsWalk(SampleTree(b), [0], [1, 2]) == [0, 1, 2, 3]
  {
    var nodes := SampleTree(b);
    WalkTakes(nodes, [0], 1, [2]);
    assert [0] + [1] == [0, 1] && [2] + Children(nodes[1]) == [2, 3];
    WalkOfSampleTreeFrom2(b);
  }

  lemma WalkOfSampleTreeFrom2(b: BasicBlock)
    ensures BfsWalk(SampleTree(b), [0, 1], [2, 3]) == [0, 1, 2, 3]
  {
    var nodes := SampleTree(b);
    WalkTakes(nodes, [0, 1], 2, [3]);
    assert [0, 1] + [2] == [0, 1, 2] && [3] + Children(nodes[2]) == [3];
    WalkTakes(nodes, [0, 1, 2], 3, []);
    assert [0, 1, 2] + [3] == [0, 1, 2, 3] && [] + Children(nodes[3]) == [];
  }

  /** The depth-first order 0, 1, 3, 2 lists node 3 before the nearer node 2. */
  lemma DepthFirstRejected(b: BasicBlock)
    ensures !NearestFirst(SampleTree(b), 0, [0, 1, 3, 2])
  {
    var nodes := SampleTree(b);
    assert Children(nodes[0]) == [1, 2];
    assert 2 in WithinSteps(nodes, 0, 1);
    assert WithinSteps(nodes, 0, 1) == {0, 1, 2};
    assert [0, 1, 3, 2][3] in WithinSteps(nodes, 0, 1) && [0, 1, 3, 2][2] !in WithinSteps(nodes, 0, 1);
  }

  /** One step of the walk: the head of the queue is skipped when already taken, else taken. */
  lemma WalkStep(nodes: seq<CFNode>, visited: seq<nat>, queue: seq<nat>)
    requires ClosedArena(nodes) && queue != [] && forall i :: 0 <= i < |queue| ==> queue[i] < |nodes|
    ensures queue[0] in visited ==> BfsWalk(nodes, visited, queue) == BfsWalk(nodes, visited, queue[1..])
    ensures queue[0] !in visited ==>
      BfsWalk(nodes, visited, queue) == BfsWalk(nodes, visited + [queue[0]], queue[1..] + Children(nodes[queue[0]]))
  {
  }

  /** From any level state, the walk goes on listing nearer nodes first. */
  lemma {:induction false} WalkNearestFirst(nodes: seq<CFNode>, root: nat, visited: seq<nat>, queue: seq<nat>, level: nat, m: nat, k: nat)
    requires LevelState(nodes, root, visited, queue, level, m, k)
    ensures LastNoNearer(nodes, root, BfsWalk(nodes, visited, queue))
    decreases |Unvisited(nodes, visited)|, |queue|, if m == 0 then 1 else 0, 1
  {
    if queue == [] {
    } else if m == 0 {
      var level', m', k' := NextLevel(nodes, root, visited, queue, level, k);
      WalkNearestFirst(nodes, root, visited, queue, level', m', k');
    } else {
      PopNearestFirst(nodes, root, visited, queue, level, m, k);
    }
  }

  /** The step of `WalkNearestFirst` that pops a node of the current level. */
  lemma {:induction false} PopNearestFirst(nodes: seq<CFNode>, root: nat, visited: seq<nat>, queue: seq<nat>, level: nat, m: nat, k: nat)
    requires LevelState(nodes, root, visited, queue, level, m, k) && 0 < m
    ensures LastNoNearer(nodes, root, BfsWalk(nodes, visited, queue))
    decreases |Unvisited(nodes, visited)|, |queue|, 0, 0
  {
    var x := queue[0];
    WalkStep(nodes, visited, queue);
    if x in visited {
      var queue', m' := SkipInLevel(nodes, root, visited, queue, level, m, k);
      WalkNearestFirst(nodes, root, visited, queue', level, m', k);
    } else {
      var visited', queue', m' := TakeInLevel(nodes, root, visited, queue, level, m, k);
      UnvisitedShrinks(nodes, visited, x);
      WalkNearestFirst(nodes, root, visited', queue', level, m', k);
    }
  }

  /**
   * The walk from `root` takes the nodes in breadth-first order: a node
   * reachable in `d` steps is never listed after one that is not.
   */
  lemma BfsNearestFirst(nodes: seq<CFNode>, root: nat)
    requires root < |nodes| && ClosedArena(nodes)
    ensures NearestFirst(nodes, root, BfsWalk(nodes, [], [root]))
  {
    assert [root][..1] == [root];
    WalkNearestFirst(nodes, root, [], [root], 0, 1, 0);
    LastNoNearerPairs(nodes, root, BfsWalk(nodes, [], [root]));
  }

  /** `graph` maps each of its keys to the children of that node. */
  ghost predicate Records(nodes: seq<CFNode>, graph: LinkedMap<nat, seq<nat>>) {
    forall h :: h in graph.entries ==> h < |nodes| && graph.entries[h] == Children(nodes[h])
  }

  lemma RecordsPut(nodes: seq<CFNode>, graph: LinkedMap<nat, seq<nat>>, h: nat)
    requires Records(nodes, graph) && h < |nodes|
    ensures Records(nodes, Put(graph, h, Children(nodes[h])))
  {
    var graph' := Put(graph, h, Children(nodes[h]));
    forall k: nat | k in graph'.entries
      ensures k < |nodes| && graph'.entries[k] == Children(nodes[k])
    {
      assert Get(graph', k).Some?;
      if k != h {
        assert Get(graph', k) == Get(graph, k);
      }
    }
  }

  class ControlFlowGraph {
    var nodes: seq<CFNode>

    /** Every child names a node of the graph. */
    ghost predicate Valid()
      reads this
    {
      ClosedArena(nodes)
    }

    ghost function BlockObjects(): set<BasicBlock>
      reads this
    {
      set h | 0 <= h < |nodes| :: nodes[h].block
    }

    constructor(nodes: seq<CFNode>)
      requires ClosedArena(nodes)
      ensures this.nodes == nodes && Valid()
    {
      this.nodes := nodes;
    }

    /** `insertLeft`: node `h`'s left child becomes `child`; nothing else changes. */
    method InsertLeft(h: nat, child: nat)
      requires Valid() && h < |nodes| && child < |nodes|
      modifies this
      ensures Valid()
      ensures nodes == old(nodes[h := nodes[h].(left := Some(child))])
    {
      nodes := nodes[h := nodes[h].(left := Some(child))];
    }

    /** `insertRight`: node `h`'s right child becomes `child`; nothing else changes. */
    method InsertRight(h: nat, child: nat)
      requires Valid() && h < |nodes| && child < |nodes|
      modifies this
      ensures Valid()
      ensures nodes == old(nodes[h := nodes[h].(right := Some(child))])
    {
      nodes := nodes[h := nodes[h].(right := Some(child))];
    }

    /** `removeChildren`: node `h` loses both children. */
    method RemoveChildren(h: nat)
      requires Valid() && h < |nodes|
      modifies this
      ensures Valid()
      ensures nodes == old(nodes[h := nodes[h].(left := None, right := None)])
      ensures Children(nodes[h]) == []
    {
      nodes := nodes[h := nodes[h].(left := None, right := None)];
    }

    /** `removeSingleChildNode`: `"left"` clears the left child, any other text the right one. */
    method RemoveSingleChildNode(h: nat, pos: string)
      requires Valid() && h < |nodes|
      modifies this
      ensures Valid()
      ensures pos == "left" ==> nodes == old(nodes[h := nodes[h].(left := None)])
      ensures pos != "left" ==> nodes == old(nodes[h := nodes[h].(right := None)])
    {
      if pos == "left" {
        nodes := nodes[h := nodes[h].(left := None)];
      } else {
        nodes := nodes[h := nodes[h].(right := None)];
      }
    }

    /**
     * The descent from `h` reaches a leaf within `bound` nodes, and `answer`
     * is that leaf if its block holds `byteIndex`, else nothing.
     */
    ghost predicate DescendsTo(h: nat, byteIndex: int, bound: nat, answer: Option<nat>)
      reads this, BlockObjects()
    {
      exists x :: DescendsWithin(nodes, h, bound, x) && LeafAnswer(x, byteIndex, answer)
    }

    /** `x` is a leaf, and `answer` is `x` if its block holds `byteIndex`, else nothing. */
    ghost predicate LeafAnswer(x: nat, byteIndex: int, answer: Option<nat>)
      reads this, BlockObjects()
    {
      x < |nodes| && Children(nodes[x]) == []
      && answer == (if nodes[x].block.ContainsByteIndex(byteIndex) then Some(x) else None)
    }

    /** The descent from `h` passes `len` nodes, none of them a leaf except perhaps the last. */
    ghost predicate DescendsWithoutLeaf(h: nat, len: nat)
      reads this
    {
      exists p :: DescentPath(nodes, p) && p[0] == h && |p| == len
        && forall i :: 0 <= i < len - 1 ==> Children(nodes[p[i]]) != []
    }

    /**
     * `find`: follow the left child while there is one, otherwise the right
     * child, and answer at the first node without children: that node if its
     * block holds `byteIndex`, else null. A descent longer than the graph
     * goes round a cycle and would recurse without end; it is reported as a
     * stack overflow.
     */
    function Find(h: nat, byteIndex: int): (r: Result<Option<nat>>)
      requires Valid() && h < |nodes|
      reads this, BlockObjects()
      ensures r.Ok? && r.value.Some? ==>
        var x := r.value.value;
        x < |nodes| && Children(nodes[x]) == [] && nodes[x].block.ContainsByteIndex(byteIndex)
        && Reachable(nodes, h, x)
      ensures r.Ok? ==> DescendsTo(h, byteIndex, |nodes|, r.value)
      ensures r.Err? ==> r.error == StackOverflow && DescendsWithoutLeaf(h, |nodes| + 1)
    {
      FindAnswer(h, byteIndex, |nodes|);
      FindWithin(h, byteIndex, |nodes|)
    }

    function FindWithin(h: nat, byteIndex: int, fuel: nat): (r: Result<Option<nat>>)
      requires Valid() && h < |nodes|
      reads this, BlockObjects()
      ensures r.Ok? && r.value.Some? ==>
        var x := r.value.value;
        x < |nodes| && Children(nodes[x]) == [] && nodes[x].block.ContainsByteIndex(byteIndex)
        && Reachable(nodes, h, x)
      ensures r.Err? ==> r.error == StackOverflow
      decreases fuel
    {
      var n := nodes[h];
      if fuel == 0 then Err(StackOverflow)
      else if n.left.Some? then
        var r := FindWithin(n.left.value, byteIndex, fuel - 1);
        FindReach(h, n.left.value, r);
        r
      else if n.right.Some? then
        var r := FindWithin(n.right.value, byteIndex, fuel - 1);
        FindReach(h, n.right.value, r);
        r
      else if n.block.ContainsByteIndex(byteIndex) then
        ReachableSelf(nodes, h);
        Ok(Some(h))
      else Ok(None)
    }

    /**
     * What the descent with a budget of `fuel` calls answers: the verdict on
     * the leaf it reaches within the budget, or a stack overflow when it
     * passes `fuel` nodes with children.
     */
    lemma {:induction false} FindAnswer(h: nat, byteIndex: int, fuel: nat)
      requires Valid() && h < |nodes|
      ensures FindWithin(h, byteIndex, fuel).Ok? ==> DescendsTo(h, byteIndex, fuel, FindWithin(h, byteIndex, fuel).value)
      ensures FindWithin(h, byteIndex, fuel).Err? ==> DescendsWithoutLeaf(h, fuel + 1)
      decreases fuel, 1
    {
      if fuel == 0 {
        assert DescentPath(nodes, [h]);
        assert DescendsWithoutLeaf(h, 1);
      } else if Descend(nodes[h]).Some? {
        FindAnswerDescend(h, byteIndex, fuel);
      } else {
        FindAnswerLeaf(h, byteIndex, fuel);
      }
    }

    /** `FindAnswer` at a node with a child: one step of the descent, then the answer from the child. */
    lemma {:induction false} FindAnswerDescend(h: nat, byteIndex: int, fuel: nat)
      requires Valid() && h < |nodes| && 0 < fuel && Descend(nodes[h]).Some?
      ensures FindWithin(h, byteIndex, fuel).Ok? ==> DescendsTo(h, byteIndex, fuel, FindWithin(h, byteIndex, fuel).value)
      ensures FindWithin(h, byteIndex, fuel).Err? ==> DescendsWithoutLeaf(h, fuel + 1)
      decreases fuel, 0
    {
      var c := Descend(nodes[h]).value;
      FindAnswer(c, byteIndex, fuel - 1);
      FindDescends(h, byteIndex, fuel);
      if FindWithin(c, byteIndex, fuel - 1).Ok? {
        DescendsToStep(h, c, byteIndex, fuel - 1, FindWithin(c, byteIndex, fuel - 1).value);
      } else {
        WithoutLeafStep(h, c, fuel);
      }
    }

    /** At a node with a child, the descent goes on from the child `Descend` picks. */
    lemma FindDescends(h: nat, byteIndex: int, fuel: nat)
      requires Valid() && h < |nodes| && 0 < fuel && Descend(nodes[h]).Some?
      ensures Descend(nodes[h]).value < |nodes|
      ensures FindWithin(h, byteIndex, fuel) == FindWithin(Descend(nodes[h]).value, byteIndex, fuel - 1)
    {
      assert ChildrenBelow(nodes[h], |nodes|);
    }

    /** `FindAnswer` at a leaf: the descent ends where it starts. */
    lemma FindAnswerLeaf(h: nat, byteIndex: int, fuel: nat)
      requires Valid() && h < |nodes| && 0 < fuel && Descend(nodes[h]).None?
      ensures FindWithin(h, byteIndex, fuel).Ok? && DescendsTo(h, byteIndex, fuel, FindWithin(h, byteIndex, fuel).value)
    {
      var p := [h];
      assert DescentPath(nodes, p) && p[|p| - 1] == h;
      assert DescendsWithin(nodes, h, fuel, h) && LeafAnswer(h, byteIndex, FindWithin(h, byteIndex, fuel).value);
    }

    /** A leaf the descent from `Descend`'s child reaches is reached from `h`, one node later. */
    lemma DescendsToStep(h: nat, c: nat, byteIndex: int, bound: nat, answer: Option<nat>)
      requires Valid() && h < |nodes| && Descend(nodes[h]) == Some(c)
      requires DescendsTo(c, byteIndex, bound, answer)
      ensures DescendsTo(h, byteIndex, bound + 1, answer)
    {
      var x :| DescendsWithin(nodes, c, bound, x) && LeafAnswer(x, byteIndex, answer);
      DescendsWithinStep(nodes, h, c, bound, x);
      assert DescendsWithin(nodes, h, bound + 1, x) && LeafAnswer(x, byteIndex, answer);
    }

    /** A leafless descent from `Descend`'s child is one from `h`, one node longer. */
    lemma WithoutLeafStep(h: nat, c: nat, len: nat)
      requires Valid() && h < |nodes| && Descend(nodes[h]) == Some(c)
      requires DescendsWithoutLeaf(c, len)
      ensures DescendsWithoutLeaf(h, len + 1)
    {
      var p :| DescentPath(nodes, p) && p[0] == c && |p| == len
        && forall i :: 0 <= i < len - 1 ==> Children(nodes[p[i]]) != [];
      var q := [h] + p;
      DescentCons(nodes, h, p);
      assert forall i :: 1 <= i < len ==> q[i] == p[i - 1];
    }

    /**
     * When `find` overflows, its descent comes back to a node it has already
     * passed; every call after that repeats the same cycle, so the recursion
     * in the source never returns.
     */
    lemma FindOverflowCycles(h: nat, byteIndex: int)
      requires Valid() && h < |nodes| && Find(h, byteIndex).Err?
      ensures exists p, i, j :: DescentPath(nodes, p) && p[0] == h && 0 <= i < j < |p| && p[i] == p[j]
    {
      var p :| DescentPath(nodes, p) && p[0] == h && |p| == |nodes| + 1
        && forall i :: 0 <= i < |nodes| ==> Children(nodes[p[i]]) != [];
      Pigeonhole(nodes, p);
    }

    lemma FindReach(h: nat, c: nat, r: Result<Option<nat>>)
      requires Valid() && h < |nodes| && c in Children(nodes[h])
      requires r.Ok? && r.value.Some? ==> r.value.value < |nodes| && Reachable(nodes, c, r.value.value)
      ensures r.Ok? && r.value.Some? ==> Reachable(nodes, h, r.value.value)
    {
      if r.Ok? && r.value.Some? {
        var p :| IsPath(nodes, p) && p[0] == c && p[|p| - 1] == r.value.value;
        assert IsPath(nodes, [h] + p);
      }
    }

    /** Once the descent ends within some budget, a larger budget gives the same answer. */
    lemma {:induction false} FindFuel(h: nat, byteIndex: int, fuel: nat, more: nat)
      requires Valid() && h < |nodes| && FindWithin(h, byteIndex, fuel).Ok? && fuel <= more
      ensures FindWithin(h, byteIndex, more) == FindWithin(h, byteIndex, fuel)
      decreases fuel
    {
      var n := nodes[h];
      if n.left.Some? {
        FindFuel(n.left.value, byteIndex, fuel - 1, more - 1);
      } else if n.right.Some? {
        FindFuel(n.right.value, byteIndex, fuel - 1, more - 1);
      }
    }

    /**
     * `compactGraph`: a breadth-first walk from `root` that records, for each
     * node reached, the keys of its children. Each node is entered once, so
     * the walk ends on cyclic graphs too.
     */
    method CompactGraph(root: nat) returns (graph: LinkedMap<nat, seq<nat>>, ghost order: seq<nat>)
      requires Valid() && root < |nodes|
      ensures forall h :: h in graph.entries <==> Reachable(nodes, root, h)
      ensures Records(nodes, graph)
      ensures graph.order == order && |order| >= 1 && order[0] == root
      ensures order == BfsWalk(nodes, [], [root])
    {
      var ns := nodes;
      graph := Empty();
      var queue: seq<nat> := [root];
      var visited: seq<nat> := [];
      BfsStart(ns, root);
      while queue != []
        invariant BfsInvariant(ns, root, visited, queue)
        invariant BfsWalk(ns, visited, queue) == BfsWalk(ns, [], [root])
        invariant graph.order == visited
        invariant Records(ns, graph)
        decreases |Unvisited(ns, visited)|, |queue|
      {
        var current := queue[0];
        if current in visited {
          BfsSkip(ns, root, visited, queue);
          queue := queue[1..];
        } else {
          BfsVisit(ns, root, visited, queue);
          queue := queue[1..];
          visited := visited + [current];
          var currentChildren := Children(ns[current]);
          queue := queue + currentChildren;
          RecordsPut(ns, graph, current);
          graph := Put(graph, current, currentChildren);
        }
      }
      BfsDone(ns, root, visited);
      order := visited;
    }

    method ToString(root: nat) returns (content: string, ghost order: seq<nat>, ghost texts: seq<string>)
      requires Valid() && root < |nodes|
      ensures Distinct(order) && |order| >= 1 && order[0] == root
      ensures forall h :: h in order <==> Reachable(nodes, root, h)
      ensures forall i :: 0 <= i < |order| ==> order[i] < |nodes|
      ensures |texts| == |nodes| && forall h :: 0 <= h < |nodes| ==> texts[h] == Render(nodes[h].block.code)
      ensures content == Sections(nodes, texts, order)
      ensures order == BfsWalk(nodes, [], [root]) && NearestFirst(nodes, root, order)
    {
      var blockTexts := BlockTexts(nodes);
      content, order := PrintFrom(nodes, root, blockTexts);
      texts := blockTexts;
    }
  }
}
