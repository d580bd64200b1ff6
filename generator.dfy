/**
 * The source generator: it lists the statements of the blocks reachable
 * from the root in increasing key order, and turns a loop header's
 * conditional jump into a Kotlin `for` header.
 */
module Generator {
  import opened Wrappers
  import opened Text
  import opened LinkedMaps
  import opened Blocks
  import opened Graph
  import opened Renumbering
  import opened Udm

  // ---------------------------------------------------------------------
  // restructureCFG

  /** `"$byteIndex\t$instr\n"`: unlike a block's own text, the key is printed even when negative. */
  function SourceLine(byteIndex: int, instr: string): string {
    IntToString(byteIndex) + "\t" + instr + "\n"
  }

  /** The lines `line` prints for `entries`, one after another. */
  function JoinLines(line: (int, string) -> string, entries: seq<(int, string)>): string {
    if entries == [] then ""
    else JoinLines(line, entries[..|entries| - 1]) + line(entries[|entries| - 1].0, entries[|entries| - 1].1)
  }

  /** The listing lines of `entries`, one after another. */
  function SourceLines(entries: seq<(int, string)>): string {
    JoinLines(SourceLine, entries)
  }

  /** The statements of the blocks `keys`, block after block, each block's in insertion order. */
  function Statements(codes: seq<Code>, keys: seq<int>): seq<(int, string)> {
    if keys == [] then []
    else
      var k := keys[|keys| - 1];
      Statements(codes, keys[..|keys| - 1]) + (if 0 <= k < |codes| then Entries(codes[k]) else [])
  }

  /** The text `restructureCFG` builds from the blocks `keys`. */
  function Listing(codes: seq<Code>, keys: seq<int>): string {
    SourceLines(Statements(codes, keys))
  }

  /** The nodes below `n` that can be reached from `root`, in increasing order. */
  ghost function ReachableBelow(nodes: seq<CFNode>, root: nat, n: nat): (keys: seq<int>)
    ensures Increasing(keys)
    ensures forall h :: h in keys <==> 0 <= h < n && Reachable(nodes, root, h)
  {
    if n == 0 then []
    else
      var init := ReachableBelow(nodes, root, n - 1);
      if Reachable(nodes, root, n - 1) then
        assert forall i :: 0 <= i < |init| ==> init[i] < n - 1 by {
          forall i | 0 <= i < |init|
            ensures init[i] < n - 1
          {
            assert init[i] in init;
          }
        }
        init + [n - 1]
      else init
  }

  /** Two increasing lists with the same elements are the same list. */
  lemma {:induction false} IncreasingUnique(a: seq<int>, b: seq<int>)
    requires Increasing(a) && Increasing(b) && forall x :: x in a <==> x in b
    ensures a == b
    decreases |a|
  {
    if a != [] {
      IncreasingLast(a, b);
      var a', b' := a[..|a| - 1], b[..|b| - 1];
      IncreasingInit(a, b, a', b');
      IncreasingUnique(a', b');
      assert a == a' + [a[|a| - 1]] && b == b' + [b[|b| - 1]];
    } else if b != [] {
      IncreasingLast(b, a);
      assert false;
    }
  }

  /** Increasing lists with the same elements end in the same, largest, element. */
  lemma IncreasingLast(a: seq<int>, b: seq<int>)
    requires Increasing(a) && Increasing(b) && (forall x :: x in a <==> x in b) && a != []
    ensures b != [] && a[|a| - 1] == b[|b| - 1]
  {
    var m := a[|a| - 1];
    assert m in b;
    var n := b[|b| - 1];
    assert n in a;
    var i :| 0 <= i < |a| && a[i] == n;
    var j :| 0 <= j < |b| && b[j] == m;
    assert n <= m;
    assert m <= n;
  }

  /** Without their common last element, increasing lists with the same elements still have the same elements. */
  lemma IncreasingInit(a: seq<int>, b: seq<int>, a': seq<int>, b': seq<int>)
    requires Increasing(a) && Increasing(b) && (forall x :: x in a <==> x in b)
    requires a != [] && b != [] && a[|a| - 1] == b[|b| - 1]
    requires a' == a[..|a| - 1] && b' == b[..|b| - 1]
    ensures Increasing(a') && Increasing(b')
    ensures forall x :: x in a' <==> x in b'
  {
    var m := a[|a| - 1];
    forall x
      ensures x in a' ==> x in b'
      ensures x in b' ==> x in a'
    {
      if x in a' {
        var k :| 0 <= k < |a'| && a'[k] == x;
        assert x < m && x in b;
        var l :| 0 <= l < |b| && b[l] == x;
        assert l < |b| - 1;
        assert x == b'[l];
      }
      if x in b' {
        var k :| 0 <= k < |b'| && b'[k] == x;
        assert x < m && x in a;
        var l :| 0 <= l < |a| && a[l] == x;
        assert l < |a| - 1;
        assert x == a'[l];
      }
    }
  }

  /** The text of two runs of statements is the text of the first followed by that of the second. */
  lemma {:induction false} JoinLinesAppend(line: (int, string) -> string, a: seq<(int, string)>, b: seq<(int, string)>)
    ensures JoinLines(line, a + b) == JoinLines(line, a) + JoinLines(line, b)
    decreases |b|
  {
    if b != [] {
      JoinLinesAppend(line, a, b[..|b| - 1]);
      assert (a + b)[..|a + b| - 1] == a + b[..|b| - 1];
    } else {
      assert a + b == a;
    }
  }

  /**
   * The listing holds exactly the statements of the listed blocks: a key and
   * a statement appear together exactly when some listed block maps that key
   * to that statement.
   */
  lemma {:induction false} StatementsOf(codes: seq<Code>, keys: seq<int>, k: int, instr: string)
    ensures (k, instr) in Statements(codes, keys) <==>
      exists i :: 0 <= i < |keys| && 0 <= keys[i] < |codes| && Get(codes[keys[i]], k) == Some(instr)
    decreases |keys|
  {
    if keys != [] {
      var init := keys[..|keys| - 1];
      var b := keys[|keys| - 1];
      StatementsOf(codes, init, k, instr);
      if 0 <= b < |codes| {
        EntriesOf(codes[b], k, instr);
      }
      if exists i :: 0 <= i < |keys| && 0 <= keys[i] < |codes| && Get(codes[keys[i]], k) == Some(instr) {
        var i :| 0 <= i < |keys| && 0 <= keys[i] < |codes| && Get(codes[keys[i]], k) == Some(instr);
        if i < |keys| - 1 {
          assert keys[i] == init[i];
        }
      }
      if exists i :: 0 <= i < |init| && 0 <= init[i] < |codes| && Get(codes[init[i]], k) == Some(instr) {
        var i :| 0 <= i < |init| && 0 <= init[i] < |codes| && Get(codes[init[i]], k) == Some(instr);
        assert keys[i] == init[i];
      }
    }
  }

  /** A key and a statement are an entry of `code` exactly when `code` maps the key to the statement. */
  lemma EntriesOf(code: Code, k: int, instr: string)
    ensures (k, instr) in Entries(code) <==> Get(code, k) == Some(instr)
  {
    var entries := Entries(code);
    if Get(code, k) == Some(instr) {
      var i :| 0 <= i < |code.order| && code.order[i] == k;
      assert entries[i] == (k, instr);
    }
  }

  /** The walk of `restructureCFG`: each node reachable from `root` is entered once. */
  method ReachFrom(nodes: seq<CFNode>, root: nat) returns (visited: seq<nat>)
    requires root < |nodes| && ClosedArena(nodes)
    ensures forall h :: h in visited <==> 0 <= h < |nodes| && Reachable(nodes, root, h)
  {
    var queue: seq<nat> := [root];
    visited := [];
    BfsStart(nodes, root);
    while queue != []
      invariant BfsInvariant(nodes, root, visited, queue)
      decreases |Unvisited(nodes, visited)|, |queue|
    {
      var current := queue[0];
      if current in visited {
        BfsSkip(nodes, root, visited, queue);
        queue := queue[1..];
      } else {
        BfsVisit(nodes, root, visited, queue);
        visited := visited + [current];
        queue := queue[1..] + Children(nodes[current]);
      }
    }
    BfsDone(nodes, root, visited);
    forall h | h in visited
      ensures 0 <= h < |nodes|
    {
      var i :| 0 <= i < |visited| && visited[i] == h;
    }
  }

  /** The inner loop of `restructureCFG`: one line per statement of `code`, appended to `content`. */
  method AppendBlock(content: string, code: Code) returns (result: string)
    ensures result == content + SourceLines(Entries(code))
  {
    result := AppendLines(content, Entries(code));
  }

  /** Appends one `key<TAB>statement` line per entry, in order. */
  method AppendLines(content: string, entries: seq<(int, string)>) returns (result: string)
    ensures result == content + SourceLines(entries)
  {
    result := content;
    var j := 0;
    while j < |entries|
      invariant 0 <= j <= |entries|
      invariant result == content + SourceLines(entries[..j])
    {
      var entry := entries[j];
      AppendStep(SourceLine, content, result, entries, j);
      result := result + SourceLine(entry.0, entry.1);
      j := j + 1;
    }
    assert entries[..j] == entries;
  }

  /** Appending the line of the next entry extends the lines of the prefix by that entry. */
  lemma AppendStep(line: (int, string) -> string, content: string, result: string, entries: seq<(int, string)>, j: nat)
    requires j < |entries| && result == content + JoinLines(line, entries[..j])
    ensures result + line(entries[j].0, entries[j].1) == content + JoinLines(line, entries[..j + 1])
  {
    assert entries[..j + 1][..j] == entries[..j];
  }

  /** The outer loop of `restructureCFG`: the blocks of `keys`, one after another. */
  method ListBlocks(nodes: seq<CFNode>, keys: seq<int>, ghost codes: seq<Code>) returns (content: string)
    requires |codes| == |nodes| && forall h :: 0 <= h < |nodes| ==> codes[h] == nodes[h].block.code
    requires forall i :: 0 <= i < |keys| ==> 0 <= keys[i] < |nodes|
    ensures content == Listing(codes, keys)
  {
    content := "";
    var i := 0;
    while i < |keys|
      invariant 0 <= i <= |keys|
      invariant content == Listing(codes, keys[..i])
    {
      var code := nodes[keys[i]].block.code;
      assert code == codes[keys[i]];
      ListingStep(codes, keys, i, content);
      content := AppendBlock(content, code);
      i := i + 1;
    }
    assert keys[..i] == keys;
    assert content == Listing(codes, keys);
  }

  /** Appending the lines of the next block to the listing of a prefix lists one more block. */
  lemma ListingStep(codes: seq<Code>, keys: seq<int>, i: nat, content: string)
    requires i < |keys| && 0 <= keys[i] < |codes| && content == Listing(codes, keys[..i])
    ensures content + SourceLines(Entries(codes[keys[i]])) == Listing(codes, keys[..i + 1])
  {
    ListingSnoc(codes, keys, i);
  }

  /** One more block adds its lines at the end of the listing. */
  lemma ListingSnoc(codes: seq<Code>, keys: seq<int>, i: nat)
    requires i < |keys| && 0 <= keys[i] < |codes|
    ensures Listing(codes, keys[..i + 1]) == Listing(codes, keys[..i]) + SourceLines(Entries(codes[keys[i]]))
  {
    assert keys[..i + 1][..i] == keys[..i];
    assert Statements(codes, keys[..i + 1]) == Statements(codes, keys[..i]) + Entries(codes[keys[i]]);
    JoinLinesAppend(SourceLine, Statements(codes, keys[..i]), Entries(codes[keys[i]]));
  }

  /**
   * `restructureCFG`: a breadth-first walk from `root` that enters each node
   * once even on a cyclic graph, then the statements of the nodes it reached
   * in increasing key order, one `key<TAB>statement` line each.
   */
  method RestructureCFG(g: ControlFlowGraph, root: nat) returns (content: string)
    requires g.Valid() && root < |g.nodes|
    ensures content == Listing(Codes(g.nodes), ReachableBelow(g.nodes, root, |g.nodes|))
  {
    var nodes := g.nodes;
    ghost var codes, keys := Codes(nodes), ReachableBelow(nodes, root, |nodes|);
    var visited := ReachFrom(nodes, root);
    var sorted := SortedKeys(visited);
    IncreasingUnique(sorted, keys);
    forall i | 0 <= i < |sorted|
      ensures 0 <= sorted[i] < |nodes|
    {
      assert sorted[i] in visited;
    }
    content := ListBlocks(nodes, sorted, codes);
    assert codes == Codes(g.nodes);
  }

  /**
   * Each line of the listing gives back its key: the text before the tab
   * reads as the key for every 32-bit key, negative ones included.
   */
  lemma SourceLineKey(byteIndex: int, instr: string)
    requires MinInt <= byteIndex <= MaxInt
    ensures ParseInt(Split(SourceLine(byteIndex, instr), "\t")[0]) == Ok(byteIndex)
  {
    IntToStringChars(byteIndex);
    ContainsChar(IntToString(byteIndex), '\t');
    assert IntToString(byteIndex) + "\t"[..0] == IntToString(byteIndex);
    SplitAt(IntToString(byteIndex), "\t", instr + "\n");
    assert SourceLine(byteIndex, instr) == IntToString(byteIndex) + "\t" + (instr + "\n");
    IntToStringRoundTrip(byteIndex);
  }

  /** For a key that is not negative, a listing line is the block's own line for that statement. */
  lemma SourceLineMatchesBlock(byteIndex: int, instr: string)
    ensures byteIndex >= 0 ==> SourceLine(byteIndex, instr) == Line(byteIndex, instr)
    ensures byteIndex < 0 ==> SourceLine(byteIndex, instr) == IntToString(byteIndex) + Line(byteIndex, instr)
  {
  }

  // ---------------------------------------------------------------------
  // getLoopHeader

  /**
   * The comparator `getLoopHeader` splits the condition on, with a space on
   * each side: the first of `==`, `<`, `<=`, `>`, `>=` that the condition
   * contains, checked in that order, or `""` when it contains none.
   */
  function Comparator(header: string): string {
    if Contains(header, "==") then " == "
    else if Contains(header, "<") then " < "
    else if Contains(header, "<=") then " <= "
    else if Contains(header, ">") then " > "
    else if Contains(header, ">=") then " >= "
    else ""
  }

  /**
   * The comparator is chosen by `==`, then `<`, then `>`; the `<=` and `>=`
   * arms are never taken, since a condition that contains `<=` contains `<`
   * and one that contains `>=` contains `>`.
   */
  lemma ComparatorChoice(header: string)
    ensures Comparator(header) == " == " <==> Contains(header, "==")
    ensures Comparator(header) == " < " <==> !Contains(header, "==") && Contains(header, "<")
    ensures Comparator(header) == " > " <==> !Contains(header, "==") && !Contains(header, "<") && Contains(header, ">")
    ensures Comparator(header) == "" <==> !Contains(header, "==") && !Contains(header, "<") && !Contains(header, ">")
    ensures Comparator(header) != " <= " && Comparator(header) != " >= "
  {
    if Contains(header, "<=") {
      ContainsHead(header, "<=", 1);
      assert "<="[..1] == "<";
    }
    if Contains(header, ">=") {
      ContainsHead(header, ">=", 1);
      assert ">="[..1] == ">";
    }
  }

  /** `header.split(comparatorWithWhitespace)`, where Kotlin splits on the empty text between characters. */
  function SplitComparator(header: string, cmp: string): (pieces: seq<string>)
    ensures |pieces| >= 1
  {
    if cmp == "" then SplitOnEmpty(header) else Split(header, cmp)
  }

  /**
   * `getLoopHeader`: the condition of the statement under key 0 of the loop
   * header, split on its comparator into the loop variable and the bound,
   * and the statement before `previousKey` in the previous block as the
   * start value: `for (v in start..bound)`. Without a statement under key 0
   * the result is `""`; a statement without `if (`, or a condition without
   * the comparator between spaces, throws.
   */
  function GetLoopHeader(loopHeader: Code, previousCode: Code, previousKey: int): (r: Result<string>)
    ensures r == Ok("") <==> 0 !in loopHeader.entries
    ensures r.Err? ==> r.error == IndexOutOfBounds && 0 in loopHeader.entries
    ensures r.Ok? && 0 in loopHeader.entries ==> |r.value| >= 5 && r.value[..5] == "for ("
  {
    match Get(loopHeader, 0)
    case None => Ok("")
    case Some(instr) =>
      if !Contains(instr, "if (") then Err(IndexOutOfBounds)
      else
        var header := AfterIf(instr)[0];
        var pieces := SplitComparator(header, Comparator(header));
        var startValue := Get(previousCode, previousKey - 1);
        if |pieces| < 2 then Err(IndexOutOfBounds)
        else Ok("for (" + pieces[0] + " in " + TemplateText(startValue) + ".." + pieces[1] + ")")
  }

  /**
   * A header `if (v cmp e) goto …` whose comparator is the one chosen for it
   * becomes `for (v in start..e)`, with the previous block's statement
   * before `previousKey` as the start.
   */
  lemma LoopHeaderShape(loopHeader: Code, previousCode: Code, previousKey: int, v: string, cmp: string, e: string, branch: string)
    requires Get(loopHeader, 0) == Some(Jump(v + cmp + e, branch))
    requires cmp != "" && Comparator(v + cmp + e) == cmp
    requires !Contains(v + cmp[..|cmp| - 1], cmp) && !Contains(e, cmp)
    requires !Contains(v + cmp + e + ") goto" + branch, "if (")
    requires !Contains(v + cmp + e + ") got", ") goto") && !Contains(branch, ") goto")
    ensures GetLoopHeader(loopHeader, previousCode, previousKey)
      == Ok("for (" + v + " in " + TemplateText(Get(previousCode, previousKey - 1)) + ".." + e + ")")
  {
    JumpPieces(v + cmp + e, branch);
    SplitTwo(v, cmp, e);
  }

  /**
   * A `<=` loop condition throws: `<` is chosen, and `v <= e` holds no `" < "`
   * to split on.
   */
  lemma LessOrEqualThrows(loopHeader: Code, previousCode: Code, previousKey: int, v: string, e: string, branch: string)
    requires Get(loopHeader, 0) == Some(Jump(v + " <= " + e, branch))
    requires !Contains(v + " <= " + e, "==") && !Contains(v + " <= " + e, " < ")
    requires !Contains(v + " <= " + e + ") goto" + branch, "if (")
    requires !Contains(v + " <= " + e + ") got", ") goto") && !Contains(branch, ") goto")
    ensures GetLoopHeader(loopHeader, previousCode, previousKey) == Err(IndexOutOfBounds)
  {
    var cond := v + " <= " + e;
    JumpPieces(cond, branch);
    assert OccursAt(cond, "<", |v| + 1);
    ContainsOccurrence(cond, "<");
    assert Comparator(cond) == " < ";
  }
}
