/**
 * The analysis stage (`UDM`): a breadth-first peephole pass that turns the
 * sign-of-a-difference conditions `dcmpl` leaves behind into plain
 * comparisons, the reaching-definition transfer functions, the recursive
 * dominance-frontier walk over an immediate-dominator array, and a small
 * forward pass that pushes the largest transfer value along the edges.
 */
module Udm {
  import opened Wrappers
  import opened Text
  import opened LinkedMaps
  import opened Blocks
  import opened Graph
  import opened Renumbering

  // ---------------------------------------------------------------------
  // headersOptimization

  /** `instr.split("if (")[1].split(") goto")`: the text after the first `if (`, cut at each `) goto`. */
  function AfterIf(instr: string): (pieces: seq<string>)
    requires Contains(instr, "if (")
    ensures |pieces| >= 1
  {
    Split(Split(instr, "if (")[1], ") goto")
  }

  /**
   * One statement of `headersOptimization`: a conditional jump whose
   * condition holds `)/|`, the `(x)/|a - b| cmp 0` shape of a `dcmpl`
   * result, becomes `if (a cmp b) goto` followed by the original branch
   * text. Any other statement is left alone (`None`). A statement of the
   * shape that lacks ` - `, `| ` followed by two characters, or `) goto`
   * makes one of the list indexing or substring calls throw.
   */
  function RewriteHeader(instr: string): (r: Result<Option<string>>)
    ensures r == Ok(None) <==> !Contains(instr, "if (") || !Contains(AfterIf(instr)[0], ")/|")
    ensures r.Err? ==> r.error == IndexOutOfBounds
  {
    if !Contains(instr, "if (") then Ok(None)
    else
      var condExpr := AfterIf(instr)[0];
      if !Contains(condExpr, ")/|") then Ok(None)
      else
        ContainsTail(condExpr, ")/|", 1);
        assert ")/|"[1..] == "/|";
        var expr := Split(Split(condExpr, "/|")[1], "|")[0];
        var operands := Split(expr, " - ");
        var comparison := Split(condExpr, "| ");
        var branch := AfterIf(instr);
        if |operands| < 2 || |comparison| < 2 || |comparison[1]| < 2 || |branch| < 2 then Err(IndexOutOfBounds)
        else Ok(Some("if (" + operands[0] + " " + comparison[1][..2] + " " + operands[1] + ") goto" + branch[1]))
  }

  /** `a - b`, the difference a `dcmpl` result divides by its absolute value. */
  function Difference(a: string, b: string): string {
    a + " - " + b
  }

  /** The text left of the divide bar: `(x)/|a - b|`. */
  function SignOf(x: string, a: string, b: string): string {
    "(" + x + ")" + "/|" + Difference(a, b)
  }

  /** The condition `(x)/|a - b| cmp rest` that a `dcmpl` followed by a conditional jump leaves. */
  function DcmplCondition(x: string, a: string, b: string, cmp: string, rest: string): string {
    SignOf(x, a, b) + "| " + (cmp + rest)
  }

  /** `if (cond) goto branch`. */
  function Jump(cond: string, branch: string): string {
    "if (" + cond + ") goto" + branch
  }

  /** A jump whose condition and branch hold no stray separators splits into exactly those two parts. */
  lemma JumpPieces(cond: string, branch: string)
    requires !Contains(cond + ") goto" + branch, "if (")
    requires !Contains(cond + ") got", ") goto") && !Contains(branch, ") goto")
    ensures Contains(Jump(cond, branch), "if (") && AfterIf(Jump(cond, branch)) == [cond, branch]
  {
    var after := cond + ") goto" + branch;
    var instr := Jump(cond, branch);
    assert instr == "" + "if (" + after;
    ShortFree("" + "if (" [..3], "if (");
    SplitAt("", "if (", after);
    SplitNone(after, "if (");
    assert OccursAt(instr, "if (", 0);
    ContainsOccurrence(instr, "if (");
    assert cond + ") goto"[..|") goto"| - 1] == cond + ") got";
    SplitAt(cond, ") goto", branch);
    SplitNone(branch, ") goto");
  }

  /** The difference splits on ` - ` into its two operands. */
  lemma DifferencePieces(a: string, b: string)
    requires !Contains(a + " -", " - ") && !Contains(b, " - ")
    ensures Split(Difference(a, b), " - ") == [a, b]
  {
    assert a + " - "[..2] == a + " -";
    SplitAt(a, " - ", b);
    SplitNone(b, " - ");
  }

  /** The text between `/|` and the next `|` is the difference. */
  lemma BarPieces(x: string, a: string, b: string, cmp: string, rest: string)
    requires !Contains("(" + x + ")/", "/|") && !Contains(Difference(a, b) + "| " + (cmp + rest), "/|")
    requires !Contains(Difference(a, b), "|")
    ensures var cond := DcmplCondition(x, a, b, cmp, rest);
      Contains(cond, ")/|") && |Split(cond, "/|")| == 2 && Split(Split(cond, "/|")[1], "|")[0] == Difference(a, b)
  {
    var afterBar := Difference(a, b) + "| " + (cmp + rest);
    SlashBarPieces(x, afterBar);
    Regroup("(" + x + ")", "/|", Difference(a, b), "| ", cmp + rest);
    DifferenceFirst(Difference(a, b), " " + (cmp + rest));
    BarSpace(Difference(a, b), cmp + rest);
  }

  lemma BarSpace(d: string, t: string)
    ensures d + "| " + t == d + "|" + (" " + t)
  {
    assert "| " == "|" + " ";
  }

  lemma Regroup(p: string, q: string, r: string, t: string, u: string)
    ensures p + q + r + t + u == p + q + (r + t + u)
  {
  }

  /** A text without `|` is the first piece of itself, a `|` and anything. */
  lemma DifferenceFirst(diff: string, tail: string)
    requires !Contains(diff, "|")
    ensures Split(diff + "|" + tail, "|")[0] == diff
  {
    assert diff + "|"[..0] == diff;
    SplitAt(diff, "|", tail);
  }

  /** `(x)/|` followed by a text without `/|` splits on `/|` into `(x)` and that text. */
  lemma SlashBarPieces(x: string, afterBar: string)
    requires !Contains("(" + x + ")/", "/|") && !Contains(afterBar, "/|")
    ensures var cond := "(" + x + ")" + "/|" + afterBar;
      Contains(cond, ")/|") && Split(cond, "/|") == ["(" + x + ")", afterBar]
  {
    var cond := "(" + x + ")" + "/|" + afterBar;
    assert OccursAt(cond, ")/|", |x| + 1);
    ContainsOccurrence(cond, ")/|");
    assert "(" + x + ")" + "/|"[..1] == "(" + x + ")/";
    SplitAt("(" + x + ")", "/|", afterBar);
    SplitNone(afterBar, "/|");
  }

  /** The text after the first `| ` is the comparator and what follows it. */
  lemma ComparatorPieces(x: string, a: string, b: string, cmp: string, rest: string)
    requires !Contains(SignOf(x, a, b) + "|", "| ") && !Contains(cmp + rest, "| ")
    ensures Split(DcmplCondition(x, a, b, cmp, rest), "| ") == [SignOf(x, a, b), cmp + rest]
  {
    assert SignOf(x, a, b) + "| "[..1] == SignOf(x, a, b) + "|";
    SplitAt(SignOf(x, a, b), "| ", cmp + rest);
    SplitNone(cmp + rest, "| ");
  }

  /**
   * The statement a `dcmpl` comparison leaves once its stack slots are
   * propagated, `if ((x)/|a - b| cmp rest) goto branch`, is rewritten to
   * `if (a cmp b) goto branch`, provided the separators the rewrite splits
   * on occur only where the shape puts them.
   */
  lemma RewriteDcmpl(x: string, a: string, b: string, cmp: string, rest: string, branch: string)
    requires |cmp| == 2
    requires !Contains(DcmplCondition(x, a, b, cmp, rest) + ") goto" + branch, "if (")
    requires !Contains(DcmplCondition(x, a, b, cmp, rest) + ") got", ") goto") && !Contains(branch, ") goto")
    requires !Contains("(" + x + ")/", "/|") && !Contains(Difference(a, b) + "| " + (cmp + rest), "/|")
    requires !Contains(Difference(a, b), "|")
    requires !Contains(a + " -", " - ") && !Contains(b, " - ")
    requires !Contains(SignOf(x, a, b) + "|", "| ") && !Contains(cmp + rest, "| ")
    ensures RewriteHeader(Jump(DcmplCondition(x, a, b, cmp, rest), branch))
      == Ok(Some("if (" + a + " " + cmp + " " + b + ") goto" + branch))
  {
    var cond := DcmplCondition(x, a, b, cmp, rest);
    var instr := Jump(cond, branch);
    JumpPieces(cond, branch);
    var condExpr := AfterIf(instr)[0];
    assert condExpr == cond;
    BarPieces(x, a, b, cmp, rest);
    var expr := Split(Split(condExpr, "/|")[1], "|")[0];
    DifferencePieces(a, b);
    var operands := Split(expr, " - ");
    assert operands == [a, b];
    ComparatorPieces(x, a, b, cmp, rest);
    var comparison := Split(condExpr, "| ");
    assert comparison[1][..2] == cmp;
    assert AfterIf(instr)[1] == branch;
  }

  /** A rewrite of one statement: `None` leaves it alone, an error stops the pass. */
  type Rewrite = string -> Result<Option<string>>

  /** What a statement becomes: its rewrite, or itself when it is left alone or the rewrite throws. */
  function Rewritten(rewrite: Rewrite, instr: string): string {
    match rewrite(instr)
    case Ok(Some(t)) => t
    case _ => instr
  }

  /**
   * The statements of `code` once the first `n` of them, in key order, have
   * been through `rewrite`; the first one that throws ends the pass.
   */
  function RewritePrefix(code: Code, rewrite: Rewrite, n: nat): (r: Result<Code>)
    requires n <= |code.order|
    ensures r.Ok? ==> r.value.order == code.order
    decreases n
  {
    if n == 0 then Ok(code)
    else
      match RewritePrefix(code, rewrite, n - 1)
      case Err(e) => Err(e)
      case Ok(c) =>
        var k := code.order[n - 1];
        match rewrite(code.entries[k])
        case Err(e) => Err(e)
        case Ok(None) => Ok(c)
        case Ok(Some(t)) => Ok(Put(c, k, t))
  }

  /** The whole block after `headersOptimization` has been through it. */
  function RewriteCode(code: Code): Result<Code> {
    RewritePrefix(code, RewriteHeader, |code.order|)
  }

  /** Every statement among the first `n` can be rewritten without an exception. */
  ghost predicate RewritesFine(code: Code, rewrite: Rewrite, n: nat)
    requires n <= |code.order|
  {
    forall j :: 0 <= j < n ==> rewrite(code.entries[code.order[j]]).Ok?
  }

  lemma RewritesFineStep(code: Code, rewrite: Rewrite, n: nat)
    requires 0 < n <= |code.order|
    ensures RewritesFine(code, rewrite, n) <==>
      RewritesFine(code, rewrite, n - 1) && rewrite(code.entries[code.order[n - 1]]).Ok?
  {
    if RewritesFine(code, rewrite, n - 1) && rewrite(code.entries[code.order[n - 1]]).Ok? {
      forall j | 0 <= j < n
        ensures rewrite(code.entries[code.order[j]]).Ok?
      {
        if j < n - 1 {
          assert 0 <= j < n - 1;
        }
      }
    }
  }

  /** The pass over the first `n` statements succeeds exactly when none of them throws, and throws what the first failing one throws. */
  lemma {:induction false} RewritePrefixOk(code: Code, rewrite: Rewrite, n: nat)
    requires n <= |code.order|
    ensures RewritePrefix(code, rewrite, n).Ok? <==> RewritesFine(code, rewrite, n)
    ensures RewritePrefix(code, rewrite, n).Err? ==>
      exists j :: 0 <= j < n && rewrite(code.entries[code.order[j]]) == Err(RewritePrefix(code, rewrite, n).error)
  {
    if n > 0 {
      RewritePrefixOk(code, rewrite, n - 1);
      RewritesFineStep(code, rewrite, n);
    }
  }

  /** After a successful pass over the first `n` statements, statement `j` is rewritten if `j < n` and untouched otherwise. */
  lemma {:induction false} RewritePrefixAt(code: Code, rewrite: Rewrite, n: nat, j: nat)
    requires n <= |code.order| && j < |code.order| && RewritePrefix(code, rewrite, n).Ok?
    ensures Get(RewritePrefix(code, rewrite, n).value, code.order[j])
      == Some(if j < n then Rewritten(rewrite, code.entries[code.order[j]]) else code.entries[code.order[j]])
  {
    if n > 0 {
      RewritePrefixAt(code, rewrite, n - 1, j);
      if j != n - 1 {
        DistinctAt(code.order, j, n - 1);
      }
    }
  }

  /**
   * The pass over a block succeeds exactly when no statement throws, and
   * otherwise throws what some statement throws; on success it keeps every
   * key in its place and replaces each statement by what it is rewritten to.
   */
  lemma RewritePassSpec(code: Code, rewrite: Rewrite)
    ensures RewritePrefix(code, rewrite, |code.order|).Ok? <==> forall k :: k in code.entries ==> rewrite(code.entries[k]).Ok?
    ensures RewritePrefix(code, rewrite, |code.order|).Err? ==>
      exists k :: k in code.entries && rewrite(code.entries[k]) == Err(RewritePrefix(code, rewrite, |code.order|).error)
    ensures RewritePrefix(code, rewrite, |code.order|).Ok? ==> (RewritePrefix(code, rewrite, |code.order|).value.order == code.order
      && forall k :: k in code.entries ==>
        Get(RewritePrefix(code, rewrite, |code.order|).value, k) == Some(Rewritten(rewrite, code.entries[k])))
  {
    var n := |code.order|;
    var r := RewritePrefix(code, rewrite, n);
    RewritePrefixOk(code, rewrite, n);
    if RewritesFine(code, rewrite, n) {
      forall k | k in code.entries
        ensures rewrite(code.entries[k]).Ok?
      {
        var j :| 0 <= j < n && code.order[j] == k;
      }
      forall k | k in code.entries
        ensures Get(r.value, k) == Some(Rewritten(rewrite, code.entries[k]))
      {
        var j :| 0 <= j < n && code.order[j] == k;
        RewritePrefixAt(code, rewrite, n, j);
      }
    } else {
      assert r.Err?;
      var j :| 0 <= j < n && rewrite(code.entries[code.order[j]]) == Err(r.error);
      var k := code.order[j];
      assert k in code.order;
      assert k in code.entries && rewrite(code.entries[k]) == Err(r.error);
    }
  }

  /** Once a statement throws, the pass over any longer prefix ends with the same exception. */
  lemma {:induction false} RewriteStops(code: Code, rewrite: Rewrite, i: nat, n: nat)
    requires i <= n <= |code.order| && RewritePrefix(code, rewrite, i).Err?
    ensures RewritePrefix(code, rewrite, n) == RewritePrefix(code, rewrite, i)
    decreases n
  {
    if n > i {
      RewriteStops(code, rewrite, i, n - 1);
    }
  }

  /**
   * The inner loop of `headersOptimization` on one block: each statement,
   * read from the block as it is being rewritten, is replaced in place by
   * its rewrite. An exception leaves the block part-way rewritten.
   */
  method RewriteBlock(b: BasicBlock) returns (error: Option<Exception>)
    modifies b
    ensures error.None? ==> RewriteCode(old(b.code)) == Ok(b.code)
    ensures error.Some? ==> RewriteCode(old(b.code)) == Err(error.value)
  {
    ghost var original := b.code;
    var i := 0;
    while i < |b.code.order|
      invariant i <= |original.order|
      invariant RewritePrefix(original, RewriteHeader, i) == Ok(b.code)
      invariant b.code.order == original.order
    {
      RewritePrefixAt(original, RewriteHeader, i, i);
      var instrIndex := b.code.order[i];
      var instr := b.code.entries[instrIndex];
      assert Get(b.code, instrIndex) == Some(original.entries[instrIndex]);
      var rewrite := RewriteHeader(instr);
      if rewrite.Err? {
        RewriteStops(original, RewriteHeader, i + 1, |original.order|);
        return Some(rewrite.error);
      }
      if rewrite.value.Some? {
        b.code := Put(b.code, instrIndex, rewrite.value.value);
      }
      i := i + 1;
    }
    error := None;
  }

  /** No two nodes share a block. */
  ghost predicate DistinctBlocks(nodes: seq<CFNode>) {
    forall i, j :: 0 <= i < j < |nodes| ==> nodes[i].block != nodes[j].block
  }

  lemma DistinctBlocksAt(nodes: seq<CFNode>, i: nat, j: nat)
    requires DistinctBlocks(nodes) && i < |nodes| && j < |nodes| && i != j
    ensures nodes[i].block != nodes[j].block
  {
    if j < i {
      assert nodes[j].block != nodes[i].block;
    }
  }

  /** The blocks of the visited nodes are rewritten from what they were in `before`; the others are as they were. */
  ghost predicate RewrittenSoFar(nodes: seq<CFNode>, before: seq<Code>, visited: seq<nat>)
    reads BlocksOf(nodes)
    requires |before| == |nodes|
  {
    forall h :: 0 <= h < |nodes| ==>
      if h in visited then RewriteCode(before[h]) == Ok(nodes[h].block.code) else nodes[h].block.code == before[h]
  }

  /** One node of the walk: its block is rewritten, and no other block changes. */
  method VisitNode(nodes: seq<CFNode>, ghost before: seq<Code>, ghost visited: seq<nat>, current: nat) returns (error: Option<Exception>)
    requires |before| == |nodes| && current < |nodes| && current !in visited && DistinctBlocks(nodes)
    requires RewrittenSoFar(nodes, before, visited)
    modifies nodes[current].block
    ensures error.None? ==> RewrittenSoFar(nodes, before, visited + [current])
    ensures error.Some? ==> RewriteCode(before[current]) == Err(error.value)
  {
    ghost var codes := Codes(nodes);
    assert codes[current] == before[current];
    error := RewriteBlock(nodes[current].block);
    if error.None? {
      forall h | 0 <= h < |nodes|
        ensures if h in visited + [current] then RewriteCode(before[h]) == Ok(nodes[h].block.code)
          else nodes[h].block.code == before[h]
      {
        if h != current {
          DistinctBlocksAt(nodes, h, current);
          assert nodes[h].block.code == codes[h];
          assert h in visited + [current] <==> h in visited;
        }
      }
    }
  }

  /** Exactly the blocks reachable from `root` are rewritten from what they were in `before`. */
  ghost predicate RewrittenReachable(nodes: seq<CFNode>, before: seq<Code>, root: nat)
    reads BlocksOf(nodes)
    requires |before| == |nodes|
  {
    forall h :: 0 <= h < |nodes| ==>
      if Reachable(nodes, root, h) then RewriteCode(before[h]) == Ok(nodes[h].block.code) else nodes[h].block.code == before[h]
  }

  /** The walk of `headersOptimization` over the nodes, from blocks whose statements were `before`. */
  method RewriteReachable(nodes: seq<CFNode>, root: nat, ghost before: seq<Code>) returns (error: Option<Exception>)
    requires root < |nodes| && ClosedArena(nodes) && DistinctBlocks(nodes)
    requires |before| == |nodes| && RewrittenSoFar(nodes, before, [])
    modifies BlocksOf(nodes)
    ensures error.None? ==> RewrittenReachable(nodes, before, root)
    ensures error.Some? ==> exists h :: (0 <= h < |nodes| && Reachable(nodes, root, h)
      && RewriteCode(before[h]) == Err(error.value))
  {
    var queue: seq<nat> := [root];
    var visited: seq<nat> := [];
    BfsStart(nodes, root);
    while queue != []
      invariant BfsInvariant(nodes, root, visited, queue)
      invariant RewrittenSoFar(nodes, before, visited)
      decreases |Unvisited(nodes, visited)|, |queue|
    {
      var current := queue[0];
      if current in visited {
        BfsSkip(nodes, root, visited, queue);
        queue := queue[1..];
      } else {
        BfsVisit(nodes, root, visited, queue);
        var e := VisitNode(nodes, before, visited, current);
        if e.Some? {
          assert Reachable(nodes, root, current);
          return e;
        }
        visited := visited + [current];
        queue := queue[1..] + Children(nodes[current]);
      }
    }
    BfsDone(nodes, root, visited);
    error := None;
  }

  /**
   * `headersOptimization`: a breadth-first walk from `root` that rewrites the
   * block of every node it reaches, each once even on a cyclic graph.
   * Without an exception, exactly the reachable blocks are rewritten; an
   * exception comes from a reachable block whose rewrite throws.
   */
  method HeadersOptimization(g: ControlFlowGraph, root: nat) returns (error: Option<Exception>)
    requires g.Valid() && root < |g.nodes| && DistinctBlocks(g.nodes)
    modifies g.BlockObjects()
    ensures error.None? ==> RewrittenReachable(g.nodes, old(Codes(g.nodes)), root)
    ensures error.Some? ==> exists h :: (0 <= h < |g.nodes| && Reachable(g.nodes, root, h)
      && RewriteCode(old(Codes(g.nodes))[h]) == Err(error.value))
  {
    ghost var before := Codes(g.nodes);
    assert BlocksOf(g.nodes) == g.BlockObjects();
    error := RewriteReachable(g.nodes, root, before);
  }

  // ---------------------------------------------------------------------
  // dominanceFrontier

  /**
   * `dominanceFrontier(graph, idom, node)`: every successor `y` of `node`
   * that `node` does not immediately dominate, and the frontier of every
   * successor it does. The recursion never ends when the successors form an
   * immediate-dominator cycle; `fuel` bounds the nesting and running out
   * stands for the resulting stack overflow. A node missing from `graph`
   * (`!!`) or a successor outside `idom` throws.
   */
  function Frontier(graph: map<int, seq<int>>, idom: seq<int>, node: int, fuel: nat): (r: Result<set<int>>)
    ensures r.Ok? ==> fuel > 0 && node in graph
    decreases fuel, 0
  {
    if fuel == 0 then Err(StackOverflow)
    else if node !in graph then Err(NullPointer)
    else FrontierOf(graph, idom, node, graph[node], fuel - 1)
  }

  /** The loop of `dominanceFrontier` over the successors `succs` of `node`, in order. */
  function FrontierOf(graph: map<int, seq<int>>, idom: seq<int>, node: int, succs: seq<int>, fuel: nat): (r: Result<set<int>>)
    decreases fuel, 1, |succs|
  {
    if succs == [] then Ok({})
    else
      var y := succs[0];
      if !(0 <= y < |idom|) then Err(IndexOutOfBounds)
      else if idom[y] != node then
        match FrontierOf(graph, idom, node, succs[1..], fuel)
        case Err(e) => Err(e)
        case Ok(rest) => Ok({y} + rest)
      else
        match Frontier(graph, idom, y, fuel)
        case Err(e) => Err(e)
        case Ok(sub) =>
          match FrontierOf(graph, idom, node, succs[1..], fuel)
          case Err(e) => Err(e)
          case Ok(rest) => Ok(sub + rest)
  }

  /** What a successor `y` of `node` adds: itself, or its own frontier when `node` immediately dominates it. */
  ghost predicate Adds(graph: map<int, seq<int>>, idom: seq<int>, node: int, y: int, fuel: nat, z: int) {
    0 <= y < |idom|
    && ((idom[y] != node && z == y)
      || (idom[y] == node && Frontier(graph, idom, y, fuel).Ok? && z in Frontier(graph, idom, y, fuel).value))
  }

  /** Every successor is in range and adds what it should; nothing else is added. */
  ghost predicate FrontierOfExact(graph: map<int, seq<int>>, idom: seq<int>, node: int, succs: seq<int>, fuel: nat, r: set<int>) {
    (forall y :: y in succs ==> (0 <= y < |idom|
      && (idom[y] != node ==> y in r)
      && (idom[y] == node ==> Frontier(graph, idom, y, fuel).Ok? && Frontier(graph, idom, y, fuel).value <= r)))
    && (forall z :: z in r ==> exists y :: y in succs && Adds(graph, idom, node, y, fuel, z))
  }

  lemma {:induction false} FrontierOfSpec(graph: map<int, seq<int>>, idom: seq<int>, node: int, succs: seq<int>, fuel: nat)
    requires FrontierOf(graph, idom, node, succs, fuel).Ok?
    ensures FrontierOfExact(graph, idom, node, succs, fuel, FrontierOf(graph, idom, node, succs, fuel).value)
    decreases |succs|
  {
    if succs != [] {
      var y := succs[0];
      var rest := succs[1..];
      assert forall x :: x in succs <==> x == y || x in rest;
      FrontierOfSpec(graph, idom, node, rest, fuel);
      var r := FrontierOf(graph, idom, node, succs, fuel).value;
      var r' := FrontierOf(graph, idom, node, rest, fuel).value;
      forall z | z in r
        ensures exists x :: x in succs && Adds(graph, idom, node, x, fuel, z)
      {
        if z in r' {
          var x :| x in rest && Adds(graph, idom, node, x, fuel, z);
          assert x in succs;
        } else {
          assert Adds(graph, idom, node, y, fuel, z);
        }
      }
    }
  }

  /**
   * The frontier of `node` holds every successor `node` does not
   * immediately dominate and the frontier of every one it does, and
   * nothing else; a successor outside `idom` or a missing node throws.
   */
  lemma FrontierSpec(graph: map<int, seq<int>>, idom: seq<int>, node: int, fuel: nat)
    requires Frontier(graph, idom, node, fuel).Ok?
    ensures node in graph && fuel > 0
    ensures var r := Frontier(graph, idom, node, fuel).value;
      (forall y :: y in graph[node] ==> (0 <= y < |idom|
        && (idom[y] != node ==> y in r)
        && (idom[y] == node ==> Frontier(graph, idom, y, fuel - 1).Ok? && Frontier(graph, idom, y, fuel - 1).value <= r)))
      && (forall z :: z in r ==> exists y :: y in graph[node] && Adds(graph, idom, node, y, fuel - 1, z))
  {
    FrontierOfSpec(graph, idom, node, graph[node], fuel - 1);
  }

  /**
   * When a successor that `node` immediately dominates has no frontier
   * within the budget, neither has `node`: an error deeper down reaches the
   * caller, whatever the successors around it.
   */
  lemma {:induction false} FrontierOfFails(graph: map<int, seq<int>>, idom: seq<int>, node: int, succs: seq<int>, fuel: nat, i: nat)
    requires i < |succs| && 0 <= succs[i] < |idom| && idom[succs[i]] == node
    requires Frontier(graph, idom, succs[i], fuel).Err?
    ensures FrontierOf(graph, idom, node, succs, fuel).Err?
    decreases i
  {
    if i > 0 {
      assert succs[1..][i - 1] == succs[i];
      FrontierOfFails(graph, idom, node, succs[1..], fuel, i - 1);
    }
  }

  /**
   * A node that lists itself as a successor and is its own immediate
   * dominator calls itself for ever: no budget is enough.
   */
  lemma {:induction false} FrontierSelfLoop(graph: map<int, seq<int>>, idom: seq<int>, node: int, fuel: nat)
    requires node in graph && node in graph[node] && 0 <= node < |idom| && idom[node] == node
    ensures Frontier(graph, idom, node, fuel).Err?
    decreases fuel
  {
    if fuel > 0 {
      FrontierSelfLoop(graph, idom, node, fuel - 1);
      var i :| 0 <= i < |graph[node]| && graph[node][i] == node;
      FrontierOfFails(graph, idom, node, graph[node], fuel - 1, i);
    }
  }

  /** A walk that ends within a budget ends the same way with any larger budget. */
  lemma {:induction false} FrontierFuel(graph: map<int, seq<int>>, idom: seq<int>, node: int, fuel: nat, more: nat)
    requires fuel <= more && Frontier(graph, idom, node, fuel).Ok?
    ensures Frontier(graph, idom, node, more) == Frontier(graph, idom, node, fuel)
    decreases fuel, 0
  {
    FrontierOfFuel(graph, idom, node, graph[node], fuel - 1, more - 1);
  }

  lemma {:induction false} FrontierOfFuel(graph: map<int, seq<int>>, idom: seq<int>, node: int, succs: seq<int>, fuel: nat, more: nat)
    requires fuel <= more && FrontierOf(graph, idom, node, succs, fuel).Ok?
    ensures FrontierOf(graph, idom, node, succs, more) == FrontierOf(graph, idom, node, succs, fuel)
    decreases fuel, 1, |succs|
  {
    if succs != [] {
      var y := succs[0];
      if idom[y] == node {
        FrontierFuel(graph, idom, y, fuel, more);
      }
      FrontierOfFuel(graph, idom, node, succs[1..], fuel, more);
    }
  }

  // ---------------------------------------------------------------------
  // Reaching definitions

  /** A reaching definition: a map from block key to symbol names. */
  type Def = map<int, seq<string>>

  /** `reduce { acc, parent -> acc union parent }` over a non-empty list. */
  function UnionAll(sets: seq<set<Def>>): (r: set<Def>)
    requires sets != []
    ensures forall d :: d in r <==> exists i :: 0 <= i < |sets| && d in sets[i]
  {
    if |sets| == 1 then sets[0]
    else
      var init := sets[..|sets| - 1];
      assert forall i :: 0 <= i < |init| ==> init[i] == sets[i];
      UnionAll(init) + sets[|sets| - 1]
  }

  /**
   * `computeInReachDefs`: the definitions that reach the end of some
   * predecessor; `reduce` throws `UnsupportedOperationException` on an
   * empty list.
   */
  function InReachDefs(parentOutReachDefs: seq<set<Def>>): (r: Result<set<Def>>)
    ensures r.Err? <==> parentOutReachDefs == []
    ensures r.Err? ==> r.error == UnsupportedOperation
    ensures r.Ok? ==> forall d :: d in r.value <==> exists i :: 0 <= i < |parentOutReachDefs| && d in parentOutReachDefs[i]
  {
    if parentOutReachDefs == [] then Err(UnsupportedOperation) else Ok(UnionAll(parentOutReachDefs))
  }

  /** `computeOutReachDefs`: the block's own definitions, and those reaching it that it does not overwrite. */
  function OutReachDefs(inDefs: set<Def>, newDefs: set<Def>, overwritingDefs: set<Def>): (r: set<Def>)
    ensures newDefs <= r && r <= newDefs + inDefs
    ensures forall d :: d in r && d !in newDefs ==> d !in overwritingDefs
    ensures forall d :: d in inDefs && d !in overwritingDefs ==> d in r
  {
    newDefs + (inDefs - overwritingDefs)
  }

  /**
   * Both transfer functions are monotone: more definitions reaching the end
   * of a predecessor never remove any from a block's entry or exit.
   */
  lemma ReachDefsMonotone(parents: seq<set<Def>>, i: nat, more: set<Def>, newDefs: set<Def>, overwritingDefs: set<Def>)
    requires i < |parents| && parents[i] <= more
    ensures InReachDefs(parents).value <= InReachDefs(parents[i := more]).value
    ensures OutReachDefs(InReachDefs(parents).value, newDefs, overwritingDefs)
      <= OutReachDefs(InReachDefs(parents[i := more]).value, newDefs, overwritingDefs)
  {
    var grown := parents[i := more];
    forall d | d in InReachDefs(parents).value
      ensures d in InReachDefs(grown).value
    {
      var j :| 0 <= j < |parents| && d in parents[j];
      assert d in grown[j];
    }
  }

  // ---------------------------------------------------------------------
  // forwardDataFlow

  function Max(a: int, b: int): int {
    if a >= b then a else b
  }

  /** The inner loop: `nodeValues[child] = nodeValues[child].coerceAtLeast(v)` for each child in turn. */
  function Raise(values: seq<int>, children: seq<int>, v: int): (r: Result<seq<int>>)
    ensures r.Ok? <==> forall i :: 0 <= i < |children| ==> 0 <= children[i] < |values|
    ensures r.Err? ==> r.error == IndexOutOfBounds
    ensures r.Ok? ==> |r.value| == |values|
    decreases |children|
  {
    if children == [] then Ok(values)
    else
      var init := children[..|children| - 1];
      var c := children[|children| - 1];
      assert forall i :: 0 <= i < |init| ==> init[i] == children[i];
      match Raise(values, init, v)
      case Err(e) => Err(e)
      case Ok(vs) => if 0 <= c < |vs| then Ok(vs[c := Max(vs[c], v)]) else Err(IndexOutOfBounds)
  }

  /** Each listed child ends up with at least `v`, and no other slot changes. */
  lemma {:induction false} RaiseValues(values: seq<int>, children: seq<int>, v: int)
    requires Raise(values, children, v).Ok?
    ensures forall x :: 0 <= x < |values| ==>
      Raise(values, children, v).value[x] == if x in children then Max(values[x], v) else values[x]
    decreases |children|
  {
    if children != [] {
      var init := children[..|children| - 1];
      var c := children[|children| - 1];
      assert children == init + [c];
      assert forall x :: x in children <==> x in init || x == c;
      RaiseSnoc(values, init, v, c);
      RaiseValues(values, init, v);
    }
  }

  /** One more child: its slot is raised to at least `v`, or the loop throws. */
  lemma RaiseSnoc(values: seq<int>, children: seq<int>, v: int, c: int)
    requires Raise(values, children, v).Ok?
    ensures var vs := Raise(values, children, v).value;
      Raise(values, children + [c], v) == if 0 <= c < |vs| then Ok(vs[c := Max(vs[c], v)]) else Err(IndexOutOfBounds)
  {
    assert (children + [c])[..|children|] == children;
  }

  /**
   * The values after the outer loop has handled the first `i` nodes of
   * `nodes`: each node's slot is set to its transfer value, then each of its
   * children is raised to at least that value.
   */
  function Flow(cfg: LinkedMap<int, seq<int>>, transfer: int -> int, nodes: seq<int>, i: nat): Result<seq<int>>
    requires i <= |nodes|
    decreases i
  {
    if i == 0 then Ok(seq(|nodes|, _ => 0))
    else
      match Flow(cfg, transfer, nodes, i - 1)
      case Err(e) => Err(e)
      case Ok(vs) => FlowNode(cfg, transfer, vs, nodes[i - 1])
  }

  /** One turn of the outer loop: `node`'s slot takes its transfer value, then its children are raised to it. */
  function FlowNode(cfg: LinkedMap<int, seq<int>>, transfer: int -> int, vs: seq<int>, node: int): Result<seq<int>> {
    if !(0 <= node < |vs|) then Err(IndexOutOfBounds)
    else if node !in cfg.entries then Err(NullPointer)
    else Raise(vs[node := transfer(node)], cfg.entries[node], transfer(node))
  }

  /** The values the whole outer loop leaves, over the keys in increasing order. */
  function DataFlow(cfg: LinkedMap<int, seq<int>>, transfer: int -> int): Result<seq<int>> {
    var nodes := SortedKeys(cfg.order);
    Flow(cfg, transfer, nodes, |nodes|)
  }

  /** Once a step throws, the outer loop ends with that exception. */
  lemma {:induction false} FlowStops(cfg: LinkedMap<int, seq<int>>, transfer: int -> int, nodes: seq<int>, i: nat, n: nat)
    requires i <= n <= |nodes|
    requires Flow(cfg, transfer, nodes, i).Err?
    ensures Flow(cfg, transfer, nodes, n) == Flow(cfg, transfer, nodes, i)
    decreases n
  {
    if n > i {
      FlowStops(cfg, transfer, nodes, i, n - 1);
    }
  }

  /**
   * `forwardDataFlow`: the keys in increasing order, one value per key, all
   * zero at first; each node in turn takes its transfer value and passes it
   * on to its children. The source discards the values; here they are the
   * result. A key or a child outside `0 .. size - 1` throws.
   */
  method ForwardDataFlow(cfg: LinkedMap<int, seq<int>>, transfer: int -> int) returns (r: Result<seq<int>>)
    ensures r == DataFlow(cfg, transfer)
  {
    r := FlowOver(cfg, transfer, SortedKeys(cfg.order));
  }

  /** The outer loop of `forwardDataFlow`, over `nodes` in turn. */
  method FlowOver(cfg: LinkedMap<int, seq<int>>, transfer: int -> int, nodes: seq<int>) returns (r: Result<seq<int>>)
    ensures r == Flow(cfg, transfer, nodes, |nodes|)
  {
    var nodeValues := new int[|nodes|](_ => 0);
    var i := 0;
    assert nodeValues[..] == seq(|nodes|, _ => 0);
    while i < |nodes|
      invariant 0 <= i <= |nodes| && nodeValues.Length == |nodes|
      invariant Flow(cfg, transfer, nodes, i) == Ok(nodeValues[..])
    {
      var error := ProcessNode(cfg, transfer, nodeValues, nodes[i]);
      if error.Some? {
        FlowStops(cfg, transfer, nodes, i + 1, |nodes|);
        return Err(error.value);
      }
      i := i + 1;
    }
    r := Ok(nodeValues[..]);
  }

  /** One turn of the outer loop of `forwardDataFlow`, on the slots in `nodeValues`. */
  method ProcessNode(cfg: LinkedMap<int, seq<int>>, transfer: int -> int, nodeValues: array<int>, node: int)
    returns (error: Option<Exception>)
    modifies nodeValues
    ensures error.None? ==> FlowNode(cfg, transfer, old(nodeValues[..]), node) == Ok(nodeValues[..])
    ensures error.Some? ==> FlowNode(cfg, transfer, old(nodeValues[..]), node) == Err(error.value)
  {
    if !(0 <= node < nodeValues.Length) {
      return Some(IndexOutOfBounds);
    }
    ghost var vs := nodeValues[..];
    nodeValues[node] := transfer(node);
    assert nodeValues[..] == vs[node := transfer(node)];
    if node !in cfg.entries {
      return Some(NullPointer);
    }
    var raised := RaiseChildren(nodeValues, node, cfg.entries[node]);
    error := if raised then None else Some(IndexOutOfBounds);
  }

  /**
   * The inner loop of `forwardDataFlow`: each child's slot is raised to at
   * least the value in `node`'s slot. `false` stands for the exception a
   * child outside the list raises.
   */
  method RaiseChildren(nodeValues: array<int>, node: nat, children: seq<int>) returns (raised: bool)
    requires node < nodeValues.Length
    modifies nodeValues
    ensures raised <==> Raise(old(nodeValues[..]), children, old(nodeValues[node])).Ok?
    ensures raised ==> Raise(old(nodeValues[..]), children, old(nodeValues[node])) == Ok(nodeValues[..])
  {
    ghost var base := nodeValues[..];
    var j := 0;
    while j < |children|
      invariant 0 <= j <= |children|
      invariant Raise(base, children[..j], base[node]) == Ok(nodeValues[..])
      invariant nodeValues[node] == base[node]
    {
      var child := children[j];
      assert children[..j + 1] == children[..j] + [child];
      RaiseSnoc(base, children[..j], base[node], child);
      if !(0 <= child < nodeValues.Length) {
        RaiseStops(base, children, base[node], j + 1);
        return false;
      }
      nodeValues[child] := Max(nodeValues[child], nodeValues[node]);
      j := j + 1;
    }
    assert children[..j] == children;
    raised := true;
  }

  /** A child out of range among the first `j` makes the whole inner loop throw. */
  lemma RaiseStops(values: seq<int>, children: seq<int>, v: int, j: nat)
    requires j <= |children| && Raise(values, children[..j], v).Err?
    ensures Raise(values, children, v).Err?
  {
    var k :| 0 <= k < j && !(0 <= children[..j][k] < |values|);
    assert children[k] == children[..j][k];
  }

  /** `q` lists `c` among its children. */
  predicate Parent(cfg: LinkedMap<int, seq<int>>, q: int, c: int) {
    q in cfg.entries && c in cfg.entries[q]
  }

  /** `v` is the largest of `base` and of the transfer values of `c`'s parents among `lo .. hi - 1`. */
  ghost predicate MaxOver(cfg: LinkedMap<int, seq<int>>, transfer: int -> int, c: int, base: int, lo: int, hi: int, v: int) {
    v >= base
    && (forall q :: lo <= q < hi && Parent(cfg, q, c) ==> v >= transfer(q))
    && (v == base || exists q :: lo <= q < hi && Parent(cfg, q, c) && v == transfer(q))
  }

  /** Every key and every child lies in `0 .. size - 1`. */
  ghost predicate InRange(cfg: LinkedMap<int, seq<int>>) {
    forall k :: k in cfg.entries ==> 0 <= k < |cfg.order| && forall c :: c in cfg.entries[k] ==> 0 <= c < |cfg.order|
  }

  /** An increasing list of `n` values from `0 .. n - 1` is `0, 1, …, n - 1`. */
  lemma IncreasingDense(s: seq<int>)
    requires Increasing(s) && forall j :: 0 <= j < |s| ==> 0 <= s[j] < |s|
    ensures forall j :: 0 <= j < |s| ==> s[j] == j
  {
    forall j | 0 <= j < |s|
      ensures s[j] == j
    {
      AtLeastPosition(s, j);
      AtMostPosition(s, j);
    }
  }

  lemma {:induction false} AtLeastPosition(s: seq<int>, j: nat)
    requires Increasing(s) && j < |s| && forall k :: 0 <= k < |s| ==> 0 <= s[k]
    ensures s[j] >= j
  {
    if j > 0 {
      AtLeastPosition(s, j - 1);
    }
  }

  lemma {:induction false} AtMostPosition(s: seq<int>, j: nat)
    requires Increasing(s) && j < |s| && forall k :: 0 <= k < |s| ==> s[k] < |s|
    ensures s[j] <= j
    decreases |s| - j
  {
    if j < |s| - 1 {
      AtMostPosition(s, j + 1);
    }
  }

  /** One node's step keeps the largest-value description of every slot. */
  lemma MaxOverStep(cfg: LinkedMap<int, seq<int>>, transfer: int -> int, c: int, base: int, lo: int, q: int, v: int)
    requires MaxOver(cfg, transfer, c, base, lo, q, v) && lo <= q && q in cfg.entries
    ensures MaxOver(cfg, transfer, c, base, lo, q + 1, if c in cfg.entries[q] then Max(v, transfer(q)) else v)
  {
    var v' := if c in cfg.entries[q] then Max(v, transfer(q)) else v;
    if v' != base && v' != v {
      assert Parent(cfg, q, c) && v' == transfer(q);
    } else if v' != base {
      var p :| lo <= p < q && Parent(cfg, p, c) && v == transfer(p);
      assert lo <= p < q + 1;
    }
  }

  /**
   * With every key and child in range, sorting the keys gives `0 .. n - 1`:
   * `n` distinct keys all below `n`.
   */
  lemma SortedDense(cfg: LinkedMap<int, seq<int>>)
    requires InRange(cfg)
    ensures SortedKeys(cfg.order) == Handles(|cfg.order|)
    ensures forall x :: x in Handles(|cfg.order|) ==> x in cfg.entries
  {
    var nodes := SortedKeys(cfg.order);
    var n := |cfg.order|;
    SortedKeysCount(cfg.order);
    forall j | 0 <= j < |nodes|
      ensures 0 <= nodes[j] < |nodes|
    {
      assert nodes[j] in cfg.order;
      assert nodes[j] in cfg.entries;
    }
    IncreasingDense(nodes);
    assert nodes == Handles(n);
    forall x | x in Handles(n)
      ensures x in cfg.entries
    {
      assert x in nodes;
      assert x in cfg.order;
    }
  }

  /** The slots after the first `i` nodes, as `FlowState` describes them. */
  ghost predicate FlowFacts(cfg: LinkedMap<int, seq<int>>, transfer: int -> int, i: nat, vs: seq<int>) {
    |vs| == |cfg.order|
    && (forall c :: 0 <= c < i && c < |vs| ==> MaxOver(cfg, transfer, c, transfer(c), c + 1, i, vs[c]))
    && (forall c :: i <= c < |vs| ==> MaxOver(cfg, transfer, c, 0, 0, i, vs[c]))
  }

  /** Handling node `i` takes the slots from their description after `i` nodes to the one after `i + 1`. */
  lemma FlowStep(cfg: LinkedMap<int, seq<int>>, transfer: int -> int, q: nat, vs: seq<int>)
    requires q < |cfg.order| && q in cfg.entries && FlowFacts(cfg, transfer, q, vs)
    requires InRange(cfg)
    ensures Raise(vs[q := transfer(q)], cfg.entries[q], transfer(q)).Ok?
    ensures FlowFacts(cfg, transfer, q + 1, Raise(vs[q := transfer(q)], cfg.entries[q], transfer(q)).value)
  {
    var children := cfg.entries[q];
    forall i | 0 <= i < |children|
      ensures 0 <= children[i] < |vs|
    {
      assert children[i] in cfg.entries[q];
    }
    var r := Raise(vs[q := transfer(q)], children, transfer(q));
    assert r.Ok?;
    RaiseValues(vs[q := transfer(q)], children, transfer(q));
    forall c | 0 <= c < |vs|
      ensures c < q + 1 ==> MaxOver(cfg, transfer, c, transfer(c), c + 1, q + 1, r.value[c])
      ensures c >= q + 1 ==> MaxOver(cfg, transfer, c, 0, 0, q + 1, r.value[c])
    {
      if c < q {
        MaxOverStep(cfg, transfer, c, transfer(c), c + 1, q, vs[c]);
      } else if c > q {
        MaxOverStep(cfg, transfer, c, 0, 0, q, vs[c]);
      }
    }
  }

  /**
   * With every key and child in range, after the first `i` keys a handled
   * slot `c` holds the largest of its own transfer value and those of its
   * parents among `c + 1 .. i - 1`, and a slot not yet handled the largest
   * of zero and those of its parents below `i`.
   */
  lemma {:induction false} FlowState(cfg: LinkedMap<int, seq<int>>, transfer: int -> int, i: nat)
    requires InRange(cfg) && i <= |cfg.order|
    requires forall x :: x in Handles(|cfg.order|) ==> x in cfg.entries
    ensures Flow(cfg, transfer, Handles(|cfg.order|), i).Ok?
    ensures FlowFacts(cfg, transfer, i, Flow(cfg, transfer, Handles(|cfg.order|), i).value)
    decreases i
  {
    var nodes := Handles(|cfg.order|);
    if i > 0 {
      FlowState(cfg, transfer, i - 1);
      var vs := Flow(cfg, transfer, nodes, i - 1).value;
      assert nodes[i - 1] == i - 1 && i - 1 in cfg.entries;
      FlowStep(cfg, transfer, i - 1, vs);
    }
  }

  /**
   * The pass ends without an exception exactly when every key and every
   * child lies in range. Each slot then holds the largest of its own
   * transfer value and those of its parents with a larger key: a value sent
   * to a child with a larger key is overwritten when that child is handled.
   */
  lemma FlowResult(cfg: LinkedMap<int, seq<int>>, transfer: int -> int)
    ensures DataFlow(cfg, transfer).Ok? <==> InRange(cfg)
    ensures InRange(cfg) ==> var vs := DataFlow(cfg, transfer).value;
      |vs| == |cfg.order| && forall c :: 0 <= c < |vs| ==> MaxOver(cfg, transfer, c, transfer(c), c + 1, |vs|, vs[c])
  {
    if InRange(cfg) {
      SortedDense(cfg);
      FlowState(cfg, transfer, |cfg.order|);
    } else {
      FlowFails(cfg, transfer);
    }
  }

  /** A key or a child out of range makes the pass throw. */
  lemma FlowFails(cfg: LinkedMap<int, seq<int>>, transfer: int -> int)
    requires !InRange(cfg)
    ensures DataFlow(cfg, transfer).Err?
  {
    var nodes := SortedKeys(cfg.order);
    SortedKeysCount(cfg.order);
    var k :| k in cfg.entries && !(0 <= k < |nodes| && forall c :: c in cfg.entries[k] ==> 0 <= c < |nodes|);
    var j :| 0 <= j < |nodes| && nodes[j] == k;
    FlowFailsAt(cfg, transfer, nodes, j);
  }

  /** A node out of range, or with a child out of range, makes the outer loop throw by the time it is handled. */
  lemma FlowFailsAt(cfg: LinkedMap<int, seq<int>>, transfer: int -> int, nodes: seq<int>, j: nat)
    requires j < |nodes| && (forall x :: x in nodes ==> x in cfg.entries)
    requires var k := nodes[j]; !(0 <= k < |nodes| && forall c :: c in cfg.entries[k] ==> 0 <= c < |nodes|)
    ensures Flow(cfg, transfer, nodes, |nodes|).Err?
  {
    var n := |nodes|;
    var k := nodes[j];
    if Flow(cfg, transfer, nodes, j).Ok? {
      var vs := Flow(cfg, transfer, nodes, j).value;
      FlowLength(cfg, transfer, nodes, j);
      assert FlowNode(cfg, transfer, vs, k).Err? by {
        if 0 <= k < n {
          var c :| c in cfg.entries[k] && !(0 <= c < n);
          assert |vs[k := transfer(k)]| == n;
        }
      }
      assert Flow(cfg, transfer, nodes, j + 1) == FlowNode(cfg, transfer, vs, k);
      FlowStops(cfg, transfer, nodes, j + 1, n);
    } else {
      FlowStops(cfg, transfer, nodes, j, n);
    }
  }

  lemma {:induction false} FlowLength(cfg: LinkedMap<int, seq<int>>, transfer: int -> int, nodes: seq<int>, i: nat)
    requires i <= |nodes| && forall x :: x in nodes ==> x in cfg.entries
    requires Flow(cfg, transfer, nodes, i).Ok?
    ensures |Flow(cfg, transfer, nodes, i).value| == |nodes|
    decreases i
  {
    if i > 0 {
      FlowLength(cfg, transfer, nodes, i - 1);
    }
  }
}
