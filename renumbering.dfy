/**
 * Renumbering after the stack slots are gone: every statement key becomes
 * its rank among the surviving keys, so the keys run densely from zero, and
 * every `goto T` is pointed at the first surviving statement at or after
 * byte `T`.
 */
module Renumbering {
  import opened Wrappers
  import opened Text
  import opened LinkedMaps
  import opened Blocks

  /** Each element is smaller than every later one. */
  predicate Increasing(s: seq<int>) {
    forall i, j :: 0 <= i < j < |s| ==> s[i] < s[j]
  }

  /** `k` put in its place in an increasing list; a list that holds it already is kept. */
  function Insert(sorted: seq<int>, k: int): (r: seq<int>)
    requires Increasing(sorted)
    ensures Increasing(r)
    ensures forall x :: x in r <==> x in sorted || x == k
    ensures |r| == if k in sorted then |sorted| else |sorted| + 1
  {
    if sorted == [] then [k]
    else if k < sorted[0] then [k] + sorted
    else if k == sorted[0] then sorted
    else
      var rest := Insert(sorted[1..], k);
      assert forall j :: 0 <= j < |rest| ==> sorted[0] < rest[j] by {
        forall j | 0 <= j < |rest|
          ensures sorted[0] < rest[j]
        {
          assert rest[j] in sorted[1..] || rest[j] == k;
        }
      }
      [sorted[0]] + rest
  }

  /** `toSortedMap().keys.toList()`: the keys in increasing order. */
  function SortedKeys(keys: seq<int>): (sorted: seq<int>)
    ensures Increasing(sorted)
    ensures forall x :: x in sorted <==> x in keys
    ensures |sorted| <= |keys|
  {
    if keys == [] then [] else Insert(SortedKeys(keys[..|keys| - 1]), keys[|keys| - 1])
  }

  /** Sorting distinct keys loses none of them. */
  lemma {:induction false} SortedKeysCount(keys: seq<int>)
    requires Distinct(keys)
    ensures |SortedKeys(keys)| == |keys|
  {
    if keys != [] {
      var init := keys[..|keys| - 1];
      DistinctInit(keys);
      SortedKeysCount(init);
    }
  }

  /** `indexOf`: the position of the first `k` in `s`, or -1 when there is none. */
  function IndexIn(s: seq<int>, k: int): (r: int)
    ensures -1 <= r < |s|
    ensures r == -1 <==> k !in s
    ensures r >= 0 ==> s[r] == k && forall j :: 0 <= j < r ==> s[j] != k
  {
    if s == [] then -1
    else if s[0] == k then 0
    else
      var r := IndexIn(s[1..], k);
      if r == -1 then -1 else r + 1
  }

  /** In an increasing list, position follows value: a smaller key has a smaller rank. */
  lemma RankOrder(sorted: seq<int>, a: int, b: int)
    requires Increasing(sorted) && a in sorted && b in sorted
    ensures a < b <==> IndexIn(sorted, a) < IndexIn(sorted, b)
  {
  }

  /** The ranks of the keys of an increasing list are exactly the positions `0..|sorted| - 1`. */
  lemma RanksDense(sorted: seq<int>, i: int)
    requires Increasing(sorted)
    ensures 0 <= i < |sorted| <==> exists k :: k in sorted && IndexIn(sorted, k) == i
  {
    if 0 <= i < |sorted| {
      assert IndexIn(sorted, sorted[i]) == i;
    }
  }

  /** The first position from `from` on whose key is at least `target`, or `|sorted|` when none is. */
  function SearchFrom(sorted: seq<int>, target: int, from: nat): (i: nat)
    requires from <= |sorted|
    ensures from <= i <= |sorted|
    ensures i < |sorted| ==> sorted[i] >= target
    ensures forall j :: from <= j < i ==> sorted[j] < target
    decreases |sorted| - from
  {
    if from == |sorted| then from
    else if sorted[from] >= target then from
    else SearchFrom(sorted, target, from + 1)
  }

  /**
   * The new branch target: the least position whose key is at least
   * `target`, or 0 when every key is below it.
   */
  function FirstAtLeast(sorted: seq<int>, target: int): (i: nat)
    ensures i < |sorted| || i == 0
    ensures (exists j :: 0 <= j < |sorted| && sorted[j] >= target) ==>
      sorted[i] >= target && forall j :: 0 <= j < i ==> sorted[j] < target
    ensures (forall j :: 0 <= j < |sorted| ==> sorted[j] < target) ==> i == 0
  {
    var i := SearchFrom(sorted, target, 0);
    if i < |sorted| then i else 0
  }

  /** The inner loop of the renumbering: the first position whose key is at least `branchOffset`. */
  method NewBranchOffset(branchOffsetMapping: seq<int>, branchOffset: int) returns (newBranchOffset: nat)
    ensures newBranchOffset == FirstAtLeast(branchOffsetMapping, branchOffset)
  {
    newBranchOffset := 0;
    var index := 0;
    while index < |branchOffsetMapping|
      invariant 0 <= index <= |branchOffsetMapping|
      invariant forall j :: 0 <= j < index ==> branchOffsetMapping[j] < branchOffset
      invariant newBranchOffset == 0
    {
      if branchOffsetMapping[index] >= branchOffset {
        newBranchOffset := index;
        break;
      }
      index := index + 1;
    }
  }

  /** `hasJump`: the statement mentions `goto`. */
  predicate HasJump(instr: string) {
    Contains(instr, "goto")
  }

  /**
   * `getJumpDest`: the number after the first `goto `; a statement without
   * one has no second piece, and a piece that is not a number does not parse.
   */
  function GetJumpDest(instr: string): (r: Result<int>)
    ensures !Contains(instr, "goto ") ==> r == Err(IndexOutOfBounds)
    ensures r.Err? ==> r.error in {IndexOutOfBounds, NumberFormat}
    ensures r.Ok? ==> MinInt <= r.value <= MaxInt
  {
    var pieces := Split(instr, "goto ");
    if |pieces| < 2 then Err(IndexOutOfBounds) else ParseInt(pieces[1])
  }

  /**
   * One statement as the renumbering rewrites it: a `goto T` becomes `goto i`
   * for the first surviving position `i` at or after `T`; the text before
   * `goto ` is kept and the rest after the number is dropped.
   */
  function Retarget(instr: string, sorted: seq<int>): (r: Result<string>)
    ensures !HasJump(instr) ==> r == Ok(instr)
    ensures HasJump(instr) ==> r == match GetJumpDest(instr)
      case Err(e) => Err(e)
      case Ok(target) => Ok(Split(instr, "goto ")[0] + "goto " + IntToString(FirstAtLeast(sorted, target)))
  {
    if !HasJump(instr) then Ok(instr)
    else
      var pieces := Split(instr, "goto ");
      if |pieces| < 2 then Err(IndexOutOfBounds)
      else
        match ParseInt(pieces[1])
        case Err(e) => Err(e)
        case Ok(target) => Ok(pieces[0] + "goto " + IntToString(FirstAtLeast(sorted, target)))
  }

  /** The rewrite of one statement inside the renumbering loop (lines 113-124). */
  method RetargetStatement(instr: string, branchOffsetMapping: seq<int>) returns (r: Result<string>)
    ensures r == Retarget(instr, branchOffsetMapping)
  {
    if !HasJump(instr) {
      return Ok(instr);
    }
    var pieces := Split(instr, "goto ");
    if |pieces| < 2 {
      return Err(IndexOutOfBounds);
    }
    var branchOffset := ParseInt(pieces[1]);
    if branchOffset.Err? {
      return Err(branchOffset.error);
    }
    var newBranchOffset := NewBranchOffset(branchOffsetMapping, branchOffset.value);
    return Ok(pieces[0] + "goto " + IntToString(newBranchOffset));
  }

  /** Digits never contain `goto `. */
  lemma NumberFree(n: int)
    ensures !Contains(IntToString(n), "goto ")
  {
    IntToStringChars(n);
    if Contains(IntToString(n), "goto ") {
      ContainsFirstChar(IntToString(n), "goto ");
    }
  }

  /** A retargeted jump reads back as the new target. */
  lemma RetargetJumpDest(instr: string, sorted: seq<int>)
    requires Retarget(instr, sorted).Ok? && HasJump(instr) && |sorted| <= MaxInt
    ensures GetJumpDest(Retarget(instr, sorted).value) == Ok(FirstAtLeast(sorted, GetJumpDest(instr).value))
  {
    var pieces := Split(instr, "goto ");
    var n := FirstAtLeast(sorted, GetJumpDest(instr).value);
    SplitPiecesFree(instr, "goto ");
    assert !Contains(pieces[0], "goto ");
    NumberFree(n);
    SplitAround(pieces[0], "goto ", IntToString(n));
    IntToStringRoundTrip(n);
  }

  /** The new key of every entry, entry by entry. */
  function Rekeyed(entries: seq<(int, string)>, rank: int -> int): (keys: seq<int>)
    ensures |keys| == |entries|
    ensures forall i :: 0 <= i < |entries| ==> keys[i] == rank(entries[i].0)
  {
    seq(|entries|, i requires 0 <= i < |entries| => rank(entries[i].0))
  }

  /**
   * The loop of the renumbering over `entries` in map order, for any new key
   * and any statement rewrite: each rewritten statement is stored under the
   * entry's new key, in a fresh map; the first rewrite that throws ends it.
   */
  function Rekey(entries: seq<(int, string)>, rank: int -> int, rewrite: string -> Result<string>): Result<Code> {
    if entries == [] then Ok(Empty())
    else
      match Rekey(entries[..|entries| - 1], rank, rewrite)
      case Err(e) => Err(e)
      case Ok(code) =>
        var (byteIndex, instr) := entries[|entries| - 1];
        match rewrite(instr)
        case Err(e) => Err(e)
        case Ok(newInstr) => Ok(Put(code, rank(byteIndex), newInstr))
  }

  /** Every statement of `entries` can be rewritten. */
  ghost predicate AllRewrite(entries: seq<(int, string)>, rewrite: string -> Result<string>) {
    forall i :: 0 <= i < |entries| ==> rewrite(entries[i].1).Ok?
  }

  /** The loop succeeds exactly when every statement can be rewritten, and throws what a rewrite throws. */
  lemma {:induction false} RekeyOk(entries: seq<(int, string)>, rank: int -> int, rewrite: string -> Result<string>)
    ensures Rekey(entries, rank, rewrite).Ok? <==> AllRewrite(entries, rewrite)
    ensures Rekey(entries, rank, rewrite).Err? ==>
      exists i :: 0 <= i < |entries| && rewrite(entries[i].1) == Err(Rekey(entries, rank, rewrite).error)
  {
    if entries != [] {
      var n := |entries| - 1;
      var init := entries[..n];
      RekeyOk(init, rank, rewrite);
      assert forall i :: 0 <= i < n ==> init[i] == entries[i];
      assert AllRewrite(entries, rewrite) <==> AllRewrite(init, rewrite) && rewrite(entries[n].1).Ok?;
      match Rekey(init, rank, rewrite) {
        case Err(e) =>
          var i :| 0 <= i < n && rewrite(init[i].1) == Err(e);
          assert rewrite(entries[i].1) == Err(e);
        case Ok(_) =>
          if rewrite(entries[n].1).Err? {
            assert Rekey(entries, rank, rewrite) == Err(rewrite(entries[n].1).error);
          }
      }
    }
  }

  /** The loop over the first `i + 1` entries, from the loop over the first `i`. */
  lemma RekeySnoc(entries: seq<(int, string)>, rank: int -> int, rewrite: string -> Result<string>, i: nat)
    requires i < |entries|
    ensures Rekey(entries[..i + 1], rank, rewrite) == match Rekey(entries[..i], rank, rewrite)
      case Err(e) => Err(e)
      case Ok(code) =>
        match rewrite(entries[i].1)
        case Err(e) => Err(e)
        case Ok(newInstr) => Ok(Put(code, rank(entries[i].0), newInstr))
  {
    assert entries[..i + 1][..i] == entries[..i];
  }

  /** Once the entries up to `i` throw, the whole loop throws the same. */
  lemma {:induction false} RekeyStops(entries: seq<(int, string)>, rank: int -> int, rewrite: string -> Result<string>, i: nat)
    requires i <= |entries| && Rekey(entries[..i], rank, rewrite).Err?
    ensures Rekey(entries, rank, rewrite) == Rekey(entries[..i], rank, rewrite)
    decreases |entries| - i
  {
    if i < |entries| {
      assert entries[..|entries| - 1][..i] == entries[..i];
      RekeyStops(entries[..|entries| - 1], rank, rewrite, i);
    } else {
      assert entries[..i] == entries;
    }
  }

  /** When the new keys are distinct, the result lists them in the order of the original entries. */
  lemma {:induction false} RekeyOrder(entries: seq<(int, string)>, rank: int -> int, rewrite: string -> Result<string>)
    requires Distinct(Rekeyed(entries, rank)) && Rekey(entries, rank, rewrite).Ok?
    ensures Rekey(entries, rank, rewrite).value.order == Rekeyed(entries, rank)
  {
    if entries != [] {
      var init := entries[..|entries| - 1];
      var keys := Rekeyed(entries, rank);
      assert Rekeyed(init, rank) == keys[..|entries| - 1];
      DistinctInit(keys);
      RekeyOrder(init, rank, rewrite);
    }
  }

  /** When the new keys are distinct and are exactly `0..n-1`, so are the keys of the result. */
  lemma RekeyDense(entries: seq<(int, string)>, rank: int -> int, rewrite: string -> Result<string>, n: nat)
    requires Distinct(Rekeyed(entries, rank)) && Rekey(entries, rank, rewrite).Ok?
    requires forall k :: k in Rekeyed(entries, rank) <==> 0 <= k < n
    ensures |Rekey(entries, rank, rewrite).value.order| == |entries|
    ensures forall i :: 0 <= i < |entries| ==> Rekey(entries, rank, rewrite).value.order[i] == rank(entries[i].0)
    ensures forall k :: k in Rekey(entries, rank, rewrite).value.entries <==> 0 <= k < n
  {
    RekeyOrder(entries, rank, rewrite);
  }

  /**
   * When the new keys are distinct, each holds its entry's rewritten
   * statement.
   */
  lemma {:induction false} RekeyShape(entries: seq<(int, string)>, rank: int -> int, rewrite: string -> Result<string>)
    requires Distinct(Rekeyed(entries, rank)) && Rekey(entries, rank, rewrite).Ok?
    ensures forall i :: 0 <= i < |entries| ==>
      rewrite(entries[i].1).Ok? && Get(Rekey(entries, rank, rewrite).value, rank(entries[i].0)) == Some(rewrite(entries[i].1).value)
  {
    if entries != [] {
      var init := entries[..|entries| - 1];
      var keys := Rekeyed(entries, rank);
      assert Rekeyed(init, rank) == keys[..|entries| - 1];
      DistinctInit(keys);
      RekeyShape(init, rank, rewrite);
      RekeyOrder(init, rank, rewrite);
      var before := Rekey(init, rank, rewrite).value;
      var last := entries[|entries| - 1];
      var k := rank(last.0);
      assert k == keys[|entries| - 1];
      assert k !in before.order;
      var after := Put(before, k, rewrite(last.1).value);
      assert Rekey(entries, rank, rewrite).value == after;
      forall i | 0 <= i < |entries|
        ensures rewrite(entries[i].1).Ok? && Get(after, rank(entries[i].0)) == Some(rewrite(entries[i].1).value)
      {
        if i < |entries| - 1 {
          assert init[i] == entries[i];
          assert keys[i] != k;
          assert Get(after, keys[i]) == Get(before, keys[i]);
        }
      }
    }
  }

  /** The rank of a key among `sorted`, as a function. */
  function RankIn(sorted: seq<int>): int -> int {
    k => IndexIn(sorted, k)
  }

  /** The retargeting against `sorted`, as a function. */
  function RetargetIn(sorted: seq<int>): string -> Result<string> {
    instr => Retarget(instr, sorted)
  }

  /**
   * The whole renumbering of a statement table: keys become ranks among the
   * sorted keys and jumps are retargeted.
   */
  function Renumber(code: Code): Result<Code> {
    var sorted := SortedKeys(code.order);
    Rekey(Entries(code), RankIn(sorted), RetargetIn(sorted))
  }

  /** Renumbering throws only what reading a jump target throws. */
  lemma RenumberErrors(code: Code)
    ensures Renumber(code).Err? ==> Renumber(code).error in {IndexOutOfBounds, NumberFormat}
  {
    var sorted := SortedKeys(code.order);
    RekeyOk(Entries(code), RankIn(sorted), RetargetIn(sorted));
  }

  /** Distinct keys that all occur in the list get distinct ranks. */
  lemma RanksDistinct(code: Code)
    ensures Distinct(Rekeyed(Entries(code), RankIn(SortedKeys(code.order))))
  {
    var sorted := SortedKeys(code.order);
    var ranks := Rekeyed(Entries(code), RankIn(sorted));
    forall i, j | 0 <= i < j < |ranks|
      ensures Apart(ranks, i, j)
    {
      DistinctAt(code.order, i, j);
      assert Entries(code)[i].0 == code.order[i] && Entries(code)[j].0 == code.order[j];
      assert code.order[i] in sorted && code.order[j] in sorted;
      assert ranks[i] == IndexIn(sorted, code.order[i]) && ranks[j] == IndexIn(sorted, code.order[j]);
    }
  }

  /** Ranking keys against their own sorted list hits exactly the positions `0..N-1`. */
  lemma RanksOfKeys(keys: seq<int>, sorted: seq<int>, ranks: seq<int>)
    requires Increasing(sorted) && |sorted| == |keys|
    requires forall x :: x in sorted <==> x in keys
    requires |ranks| == |keys|
    requires forall i :: 0 <= i < |keys| ==> ranks[i] == IndexIn(sorted, keys[i])
    ensures forall k :: k in ranks <==> 0 <= k < |keys|
  {
    forall k | 0 <= k < |keys|
      ensures k in ranks
    {
      var key := sorted[k];
      assert IndexIn(sorted, key) == k;
      var i :| 0 <= i < |keys| && keys[i] == key;
      assert ranks[i] == k;
    }
  }

  /** The ranks of a table's keys are exactly the positions `0..N-1`. */
  lemma RanksCover(code: Code)
    ensures forall k :: k in Rekeyed(Entries(code), RankIn(SortedKeys(code.order))) <==> 0 <= k < |code.order|
  {
    var sorted := SortedKeys(code.order);
    var ranks := Rekeyed(Entries(code), RankIn(sorted));
    SortedKeysCount(code.order);
    forall i | 0 <= i < |code.order|
      ensures ranks[i] == IndexIn(sorted, code.order[i])
    {
      assert Entries(code)[i].0 == code.order[i];
    }
    RanksOfKeys(code.order, sorted, ranks);
  }

  /**
   * Renumbering makes the keys dense: they are exactly `0..N-1`, listed in
   * the order of the original keys, each original key replaced by its rank.
   */
  lemma RenumberDense(code: Code)
    requires Renumber(code).Ok?
    ensures |Renumber(code).value.order| == |code.order|
    ensures forall i :: 0 <= i < |code.order| ==> Renumber(code).value.order[i] == IndexIn(SortedKeys(code.order), code.order[i])
    ensures forall k :: k in Renumber(code).value.entries <==> 0 <= k < |code.order|
  {
    var sorted := SortedKeys(code.order);
    var entries := Entries(code);
    var rank := RankIn(sorted);
    RanksDistinct(code);
    RanksCover(code);
    RekeyDense(entries, rank, RetargetIn(sorted), |code.order|);
    var c := Rekey(entries, rank, RetargetIn(sorted)).value;
    assert Renumber(code).value == c;
    forall i | 0 <= i < |code.order|
      ensures c.order[i] == IndexIn(sorted, code.order[i])
    {
      assert entries[i].0 == code.order[i];
      assert rank(entries[i].0) == IndexIn(sorted, code.order[i]);
    }
  }

  /** Renumbering keeps every statement: the one under each key, retargeted, sits under the key's rank. */
  lemma RenumberKeeps(code: Code, i: nat)
    requires Renumber(code).Ok? && i < |code.order|
    ensures var sorted := SortedKeys(code.order);
      Retarget(code.entries[code.order[i]], sorted).Ok?
      && Get(Renumber(code).value, IndexIn(sorted, code.order[i])) == Some(Retarget(code.entries[code.order[i]], sorted).value)
  {
    var sorted := SortedKeys(code.order);
    var rewrite := RetargetIn(sorted);
    RanksDistinct(code);
    RekeyShape(Entries(code), RankIn(sorted), rewrite);
    assert Entries(code)[i] == (code.order[i], code.entries[code.order[i]]);
    assert rewrite(code.entries[code.order[i]]) == Retarget(code.entries[code.order[i]], sorted);
  }

  /** Keys that were already increasing keep their order: renumbering them lists `0..N-1` in increasing order. */
  lemma RenumberIncreasing(code: Code)
    requires Renumber(code).Ok? && Increasing(code.order)
    ensures Increasing(Renumber(code).value.order)
  {
    var sorted := SortedKeys(code.order);
    var order := Renumber(code).value.order;
    RenumberDense(code);
    forall i, j | 0 <= i < j < |order|
      ensures order[i] < order[j]
    {
      assert code.order[i] in sorted && code.order[j] in sorted;
      RankOrder(sorted, code.order[i], code.order[j]);
    }
  }

  /** An increasing list of keys from `lo` up to, not including, `hi` holds at most `hi - lo` of them. */
  lemma {:induction false} IncreasingBound(s: seq<int>, lo: int, hi: int)
    requires lo <= hi && Increasing(s) && forall i :: 0 <= i < |s| ==> lo <= s[i] < hi
    ensures |s| <= hi - lo
    decreases |s|
  {
    if s != [] {
      assert forall i :: 0 <= i < |s[1..]| ==> s[0] < s[1..][i] by {
        forall i | 0 <= i < |s[1..]| ensures s[0] < s[1..][i] {
          assert s[1..][i] == s[i + 1];
        }
      }
      IncreasingBound(s[1..], s[0] + 1, hi);
    }
  }
}
