/**
 * How `run` cuts the renumbered statements into basic blocks and how it
 * picks each block's successors: a block runs from its start up to the
 * next block's start; it falls through to the next block unless one of its
 * statements is a plain `goto`; its jump goes to the last block that holds
 * the target statement.
 */
module Cutting {
  import opened Wrappers
  import opened Text
  import opened LinkedMaps
  import opened Blocks
  import opened Renumbering

  /**
   * Lines 172-173 of `run`: the first statement after block `index`, which
   * is the next block's start, or the last statement for the last block.
   */
  function BlockEnd(starts: seq<int>, index: nat, size: int): int
    requires index < |starts|
  {
    if index == |starts| - 1 then size - 1 else starts[index + 1]
  }

  /** Lines 171-175 of `run`: the statements of `code` numbered `start` to `end - 1`, in number order. */
  function BlockCode(code: Code, start: int, end: int): (r: Code)
    ensures forall k {:trigger Get(r, k)} :: (Get(r, k) == if start <= k < end then Get(code, k) else None)
    ensures Increasing(r.order)
    ensures forall i :: 0 <= i < |r.order| ==> start <= r.order[i] < end
    decreases end - start
  {
    if end <= start then Empty()
    else
      var before := BlockCode(code, start, end - 1);
      if end - 1 in code.entries then Put(before, end - 1, code.entries[end - 1]) else before
  }

  /** Statement `k` lies in block `index`: at or after its start and before its end. */
  predicate InBlock(starts: seq<int>, index: nat, size: int, k: int)
    requires index < |starts|
  {
    starts[index] <= k < BlockEnd(starts, index, size)
  }

  /** The last block that starts at or before `k`, among the first `n`. */
  function Owner(starts: seq<int>, n: nat, k: int): (r: nat)
    requires 0 < n <= |starts| && starts[0] <= k
    ensures r < n && starts[r] <= k
    ensures forall j :: r < j < n ==> starts[j] > k
  {
    if n == 1 || starts[n - 1] <= k then n - 1 else Owner(starts, n - 1, k)
  }

  /**
   * With increasing starts, every statement from the first start up to, not
   * including, the last statement lies in exactly one block, and the last
   * statement lies in none.
   */
  lemma {:induction false} BlocksPartition(starts: seq<int>, size: int, k: int)
    requires Increasing(starts) && |starts| > 0 && starts[|starts| - 1] < size
    ensures starts[0] <= k < size - 1 ==>
      var i := Owner(starts, |starts|, k);
      InBlock(starts, i, size, k) && forall j :: 0 <= j < |starts| && InBlock(starts, j, size, k) ==> j == i
    ensures k == size - 1 ==> forall j :: 0 <= j < |starts| ==> !InBlock(starts, j, size, k)
  {
    if starts[0] <= k < size - 1 {
      var i := Owner(starts, |starts|, k);
      forall j | 0 <= j < |starts| && j != i
        ensures !InBlock(starts, j, size, k)
      {
        if j < i {
          assert BlockEnd(starts, j, size) == starts[j + 1] <= starts[i];
        }
      }
    }
    if k == size - 1 {
      forall j | 0 <= j < |starts|
        ensures !InBlock(starts, j, size, k)
      {
        if j < |starts| - 1 {
          assert starts[j + 1] <= starts[|starts| - 1];
        }
      }
    }
  }

  /** Lines 185-190 of `run`: no statement of the block is a `goto` outside an `if (`. */
  predicate FallsThrough(code: Code) {
    forall k :: k in code.entries ==> !(Contains(code.entries[k], "goto") && !Contains(code.entries[k], "if ("))
  }

  /** Lines 197-199 of `run`: the last of the blocks whose statements include `target`. */
  function LastHolding(codes: seq<Code>, target: int): (r: Option<nat>)
    ensures r.Some? ==> r.value < |codes| && target in codes[r.value].entries
    ensures r.Some? ==> forall j :: r.value < j < |codes| ==> target !in codes[j].entries
    ensures r.None? ==> forall j :: 0 <= j < |codes| ==> target !in codes[j].entries
  {
    if codes == [] then None
    else if target in codes[|codes| - 1].entries then Some(|codes| - 1)
    else LastHolding(codes[..|codes| - 1], target)
  }

  /** The blocks `run` cuts from `code` at `starts`. */
  function Cut(code: Code, starts: seq<int>): (codes: seq<Code>)
    ensures |codes| == |starts|
    ensures forall i :: 0 <= i < |starts| ==> codes[i] == BlockCode(code, starts[i], BlockEnd(starts, i, |code.order|))
  {
    seq(|starts|, i requires 0 <= i < |starts| => BlockCode(code, starts[i], BlockEnd(starts, i, |code.order|)))
  }

  /**
   * A jump whose target lies in some block goes to the one block that holds
   * it; a target in no block (the last statement) gives no jump edge.
   */
  lemma JumpLandsInOwner(code: Code, starts: seq<int>, target: int)
    requires Increasing(starts) && |starts| > 0 && starts[|starts| - 1] < |code.order|
    requires target in code.entries
    ensures starts[0] <= target < |code.order| - 1 ==>
      LastHolding(Cut(code, starts), target) == Some(Owner(starts, |starts|, target))
    ensures target == |code.order| - 1 ==> LastHolding(Cut(code, starts), target) == None
  {
    var codes := Cut(code, starts);
    var size := |code.order|;
    BlocksPartition(starts, size, target);
    forall j | 0 <= j < |starts|
      ensures target in codes[j].entries <==> InBlock(starts, j, size, target)
    {
      assert Get(codes[j], target) == if InBlock(starts, j, size, target) then Get(code, target) else None;
    }
  }
}
