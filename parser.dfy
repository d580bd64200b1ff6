/**
 * The translator's `run` after the bytecode has been read: copy propagation,
 * renumbering, the marking of block boundaries, the cut into basic blocks
 * and the edges between them.
 */
module Parsing {
  import opened Wrappers
  import opened Rounds
  import opened Text
  import opened LinkedMaps
  import opened Opcodes
  import opened Blocks
  import opened Graph
  import opened Marks
  import opened Renumbering
  import opened Intermediate
  import opened Propagation
  import opened Reading
  import opened Cutting
  import opened Emulation
  import Context

  /**
   * Lines 110-127 of `run`: each statement moves to its key's rank among the
   * sorted keys and each jump is retargeted; when a jump target does not
   * parse, the statements stay as they were.
   */
  method RenumberCode(ic: IntermediateCode) returns (error: Option<Exception>)
    modifies ic
    ensures ic.stackVarIndex == old(ic.stackVarIndex)
    ensures match Renumber(old(ic.code))
      case Ok(c) => error == None && ic.code == c
      case Err(e) => error == Some(e) && ic.code == old(ic.code)
  {
    var newIntermediateCode: Code := Empty();
    var branchOffsetMapping := SortedKeys(ic.code.order);
    var entries := Entries(ic.code);
    ghost var rank, rewrite := RankIn(branchOffsetMapping), RetargetIn(branchOffsetMapping);
    var i := 0;
    while i < |entries|
      invariant 0 <= i <= |entries|
      invariant Rekey(entries[..i], rank, rewrite) == Ok(newIntermediateCode)
      invariant ic.code == old(ic.code) && ic.stackVarIndex == old(ic.stackVarIndex)
    {
      var (byteIndex, instr) := entries[i];
      RekeySnoc(entries, rank, rewrite, i);
      var newInstr := RetargetStatement(instr, branchOffsetMapping);
      if newInstr.Err? {
        RekeyStops(entries, rank, rewrite, i + 1);
        return Some(newInstr.error);
      }
      newIntermediateCode := Put(newIntermediateCode, IndexIn(branchOffsetMapping, byteIndex), newInstr.value);
      i := i + 1;
    }
    assert entries[..i] == entries;
    ic.SetCode(newIntermediateCode);
    return None;
  }

  /** The three tables `run` fills while it marks block boundaries. */
  datatype Marking = Marking(mapping: Mapping, dests: seq<int>, table: map<int, int>)

  /** The tables of a parser that has not run yet. */
  const Blank: Marking := Marking(Empty(), [], map[])

  /** The jump a statement makes: none, or the target `getJumpDest` reads (or the exception it throws). */
  function JumpTarget(instr: string): (r: Option<Result<int>>)
    ensures r.Some? <==> HasJump(instr)
  {
    if HasJump(instr) then Some(GetJumpDest(instr)) else None
  }

  /**
   * One statement of the first marking loop (lines 130-142), for any way
   * `jump` of reading a statement's jump: the statement gets the mark
   * `None`, statement 0 becomes an entry, a jump becomes an exit and records
   * its target, and the last statement becomes an exit.
   */
  function MarkStep(jump: string -> Option<Result<int>>, size: int, entry: (int, string), s: Marking): (r: Result<Marking>)
    ensures r.Ok? <==> jump(entry.1).None? || jump(entry.1).value.Ok?
    ensures r.Err? ==> jump(entry.1) == Some(Err(r.error))
    ensures r.Ok? ==> r.value.table == if jump(entry.1).Some? then s.table[entry.0 := jump(entry.1).value.value] else s.table
    ensures r.Ok? ==> r.value.dests == if jump(entry.1).Some? then s.dests + [jump(entry.1).value.value] else s.dests
    ensures r.Ok? ==> r.value.mapping.order == if entry.0 in s.mapping.entries then s.mapping.order else s.mapping.order + [entry.0]
    ensures r.Ok? ==> forall j :: j != entry.0 ==> Get(r.value.mapping, j) == Get(s.mapping, j)
    ensures r.Ok? ==> ScanMarked(Get(r.value.mapping, entry.0), entry.0, jump(entry.1).Some?, size)
  {
    var (k, instr) := entry;
    var cleared := Put(s.mapping, k, NoJump);
    var first := if k == 0 then MarkEntryIn(cleared, k) else cleared;
    var jumped :=
      match jump(instr)
      case None => Ok(Marking(first, s.dests, s.table))
      case Some(Err(e)) => Err(e)
      case Some(Ok(dest)) => Ok(Marking(MarkExitIn(first, k), s.dests + [dest], s.table[k := dest]));
    match jumped
    case Err(e) => Err(e)
    case Ok(t) => Ok(if k == size - 1 then t.(mapping := MarkExitIn(t.mapping, k)) else t)
  }

  function Marker(jump: string -> Option<Result<int>>, size: int): ((int, string), Marking) -> Result<Marking> {
    (entry, s) => MarkStep(jump, size, entry, s)
  }

  /** The first marking loop over every statement of `code`, from the tables `s`. */
  function Scan(code: Code, s: Marking): Result<Marking> {
    Run(Marker(JumpTarget, |code.order|), Entries(code), s)
  }

  /**
   * The mark the first loop leaves on statement `k`: an entry exactly when
   * it is statement 0, an exit exactly when it jumps or is the last one.
   */
  predicate ScanMarked(mark: Option<JumpType>, k: int, jumps: bool, size: int) {
    mark.Some? && (EntryMarked(mark) <==> k == 0) && (ExitMarked(mark) <==> jumps || k == size - 1)
  }

  /** The mapping after the first loop has seen the first `i` statements of `code`. */
  ghost predicate MarksScanned(jump: string -> Option<Result<int>>, code: Code, i: nat, m: Mapping)
    requires i <= |code.order|
  {
    var entries := Entries(code);
    m.order == code.order[..i]
    && forall j :: 0 <= j < i ==> ScanMarked(Get(m, entries[j].0), entries[j].0, jump(entries[j].1).Some?, |code.order|)
  }

  /** The jump table and target list after the first loop has seen the statements whose keys are in `m`. */
  ghost predicate JumpsScanned(jump: string -> Option<Result<int>>, code: Code, m: Marking) {
    (forall k :: k in m.table <==> k in m.mapping.entries && k in code.entries && jump(code.entries[k]).Some?)
    && (forall k :: k in m.table ==> k in code.entries && jump(code.entries[k]) == Some(Ok(m.table[k])))
    && (forall k :: k in m.table ==> m.table[k] in m.dests)
    && (forall d :: d in m.dests ==> exists k :: k in m.table && m.table[k] == d)
  }

  /** Every one of the first `i` statements of `code` has no jump or a jump whose target reads. */
  ghost predicate JumpsRead(jump: string -> Option<Result<int>>, code: Code, i: nat)
    requires i <= |code.order|
  {
    forall j :: 0 <= j < i ==> jump(Entries(code)[j].1).None? || jump(Entries(code)[j].1).value.Ok?
  }

  /**
   * What the first loop over the first `i` statements gives: success exactly
   * when each of their jump targets reads, the exception of one whose target
   * does not, and otherwise scanned tables.
   */
  ghost predicate ScanOutcome(jump: string -> Option<Result<int>>, code: Code, i: nat, r: Result<Marking>)
    requires i <= |code.order|
  {
    (r.Ok? <==> JumpsRead(jump, code, i))
    && (r.Err? ==> exists j :: 0 <= j < i && jump(Entries(code)[j].1) == Some(Err(r.error)))
    && (r.Ok? ==> MarksScanned(jump, code, i, r.value.mapping) && JumpsScanned(jump, code, r.value))
  }

  /**
   * The first loop over the first `i` statements succeeds exactly when each
   * of their jump targets reads, throws what the first unreadable one
   * throws, and otherwise leaves the tables scanned.
   */
  lemma {:induction false} ScanPrefix(jump: string -> Option<Result<int>>, code: Code, i: nat)
    requires i <= |code.order|
    ensures ScanOutcome(jump, code, i, Run(Marker(jump, |code.order|), Entries(code)[..i], Blank))
  {
    if i == 0 {
      assert Entries(code)[..0] == [];
    } else {
      ScanPrefix(jump, code, i - 1);
      ScanSnoc(jump, code, i - 1);
    }
  }

  /** The first loop over `i + 1` statements, from what it did over the first `i`. */
  lemma ScanSnoc(jump: string -> Option<Result<int>>, code: Code, i: nat)
    requires i < |code.order|
    requires ScanOutcome(jump, code, i, Run(Marker(jump, |code.order|), Entries(code)[..i], Blank))
    ensures ScanOutcome(jump, code, i + 1, Run(Marker(jump, |code.order|), Entries(code)[..i + 1], Blank))
  {
    var entries := Entries(code);
    var size := |code.order|;
    var step := Marker(jump, size);
    assert entries[..i + 1] == entries[..i] + [entries[i]];
    RunSnoc(step, entries[..i], entries[i], Blank);
    var before := Run(step, entries[..i], Blank);
    var after := Run(step, entries[..i + 1], Blank);
    if before.Err? {
      assert after == before;
      assert !JumpsRead(jump, code, i + 1);
    } else {
      var t := before.value;
      var next := MarkStep(jump, size, entries[i], t);
      assert after == next;
      if next.Ok? {
        ScanStepMarks(jump, code, i, t);
        ScanStepJumps(jump, code, i, t);
      } else {
        assert !JumpsRead(jump, code, i + 1);
      }
    }
  }

  /** The statement at position `i` is new to tables that have seen only the first `i`. */
  lemma ScanFreshKey(code: Code, i: nat, m: Mapping)
    requires i < |code.order| && m.order == code.order[..i]
    ensures Entries(code)[i].0 == code.order[i] && Get(code, code.order[i]) == Some(Entries(code)[i].1)
    ensures code.order[i] !in m.entries
    ensures code.order[..i + 1] == m.order + [code.order[i]]
  {
    forall j | 0 <= j < i
      ensures m.order[j] != code.order[i]
    {
      DistinctAt(code.order, j, i);
    }
  }

  /** One step of the first loop extends the scanned marks by one statement. */
  lemma ScanStepMarks(jump: string -> Option<Result<int>>, code: Code, i: nat, t: Marking)
    requires i < |code.order| && MarksScanned(jump, code, i, t.mapping)
    requires MarkStep(jump, |code.order|, Entries(code)[i], t).Ok?
    ensures MarksScanned(jump, code, i + 1, MarkStep(jump, |code.order|, Entries(code)[i], t).value.mapping)
  {
    var entries := Entries(code);
    var size := |code.order|;
    var k := entries[i].0;
    ScanFreshKey(code, i, t.mapping);
    var r := MarkStep(jump, size, entries[i], t).value.mapping;
    assert r.order == code.order[..i + 1];
    assert forall j :: j != k ==> Get(r, j) == Get(t.mapping, j);
    forall j | 0 <= j < i + 1
      ensures ScanMarked(Get(r, entries[j].0), entries[j].0, jump(entries[j].1).Some?, size)
    {
      if j < i {
        DistinctAt(code.order, j, i);
        assert entries[j].0 == code.order[j] != k;
      }
    }
  }

  /** One step of the first loop keeps the jump table and the targets in step with the marks. */
  lemma ScanStepJumps(jump: string -> Option<Result<int>>, code: Code, i: nat, t: Marking)
    requires i < |code.order| && t.mapping.order == code.order[..i] && JumpsScanned(jump, code, t)
    requires MarkStep(jump, |code.order|, Entries(code)[i], t).Ok?
    ensures JumpsScanned(jump, code, MarkStep(jump, |code.order|, Entries(code)[i], t).value)
  {
    var entries := Entries(code);
    var (k, instr) := entries[i];
    ScanFreshKey(code, i, t.mapping);
    assert code.entries[k] == instr;
    var r := MarkStep(jump, |code.order|, entries[i], t).value;
    if jump(instr).Some? {
      var dest := jump(instr).value.value;
      assert r.table == t.table[k := dest] && r.dests == t.dests + [dest];
      ScanJumpRecorded(jump, code, t, k, dest, r);
    } else {
      assert r.table == t.table && r.dests == t.dests;
      assert forall kk :: kk in r.mapping.entries <==> kk in t.mapping.entries || kk == k;
    }
  }

  /** A jumping statement `k` new to `t` adds its target to the table and the target list. */
  lemma ScanJumpRecorded(jump: string -> Option<Result<int>>, code: Code, t: Marking, k: int, dest: int, r: Marking)
    requires JumpsScanned(jump, code, t) && k !in t.mapping.entries
    requires k in code.entries && jump(code.entries[k]) == Some(Ok(dest))
    requires r.table == t.table[k := dest] && r.dests == t.dests + [dest]
    requires forall kk :: kk in r.mapping.entries <==> kk in t.mapping.entries || kk == k
    ensures JumpsScanned(jump, code, r)
  {
    forall d | d in r.dests
      ensures exists kk :: kk in r.table && r.table[kk] == d
    {
      if d in t.dests {
        var kk :| kk in t.table && t.table[kk] == d;
        assert kk != k && r.table[kk] == d;
      } else {
        assert r.table[k] == d;
      }
    }
  }

  /** Lines 144-146 of `run`: every recorded jump target is marked as an entry, in turn. */
  function MarkEntries(mapping: Mapping, dests: seq<int>): (r: Mapping)
    ensures forall k :: Get(r, k) == if k in dests then Some(MarkedEntry(Get(mapping, k))) else Get(mapping, k)
    ensures |mapping.order| <= |r.order| && r.order[..|mapping.order|] == mapping.order
    decreases |dests|
  {
    if dests == [] then mapping
    else
      var before := MarkEntries(mapping, dests[..|dests| - 1]);
      assert forall k :: k in dests <==> k in dests[..|dests| - 1] || k == dests[|dests| - 1];
      MarkEntryIn(before, dests[|dests| - 1])
  }

  /**
   * Lines 149-151 of `run`, over the keys `keys`: a statement is marked as
   * an exit when the one numbered after it is an entry. Exit marks do not
   * change entry marks, so every test sees the marks the loop started from.
   */
  function MarkExitsBefore(mapping: Mapping, keys: seq<int>): (r: Mapping)
    requires forall k :: k in keys ==> k in mapping.entries
    ensures r.order == mapping.order
    ensures forall x {:trigger Get(r, x)} :: EntryMarked(Get(r, x)) == EntryMarked(Get(mapping, x))
    decreases |keys|
  {
    if keys == [] then mapping
    else
      var k := keys[|keys| - 1];
      InInit(keys, k);
      ExitBefore(MarkExitsBefore(mapping, keys[..|keys| - 1]), k)
  }

  /** One step of the third loop: key `k` becomes an exit when the statement after it is an entry. */
  function ExitBefore(before: Mapping, k: int): (r: Mapping)
    ensures forall x {:trigger Get(r, x)} :: (Get(r, x) ==
      if x == k && EntryMarked(Get(before, k + 1)) then Some(MarkedExit(Get(before, x))) else Get(before, x))
    ensures k in before.entries ==> r.order == before.order
  {
    if EntryMarked(Get(before, k + 1)) then MarkExitIn(before, k) else before
  }

  /** Statement by statement, what the third loop leaves. */
  lemma {:induction false} ExitsBeforeGet(mapping: Mapping, keys: seq<int>, x: int)
    requires forall k :: k in keys ==> k in mapping.entries
    ensures Get(MarkExitsBefore(mapping, keys), x) ==
      if x in keys && EntryMarked(Get(mapping, x + 1)) then Some(MarkedExit(Get(mapping, x))) else Get(mapping, x)
    decreases |keys|
  {
    if keys == [] {
      assert x !in keys;
    } else {
      var init := keys[..|keys| - 1];
      var k := keys[|keys| - 1];
      ExitsBeforeGet(mapping, init, x);
      var before := MarkExitsBefore(mapping, init);
      assert MarkExitsBefore(mapping, keys) == ExitBefore(before, k);
      InInit(keys, x);
      if x == k && EntryMarked(Get(mapping, k + 1)) {
        MarkIdempotent(Get(mapping, x));
      }
    }
  }

  /**
   * Lines 154-158 of `run`, over the keys `keys` the loop iterates: the
   * statement after an exit is marked as an entry, unless the exit's key is
   * the last position (`size - 1`). A key the marking adds to the mapping
   * makes the next step of the iteration throw, as the map's key iterator
   * does after a change to the key set.
   */
  function MarkEntriesAfter(mapping: Mapping, keys: seq<int>): Result<Mapping>
    decreases |keys|
  {
    if keys == [] then Ok(mapping)
    else
      match MarkEntriesAfter(mapping, keys[..|keys| - 1])
      case Err(e) => Err(e)
      case Ok(before) =>
        if |before.order| != |mapping.order| then Err(ConcurrentModification)
        else
          var k := keys[|keys| - 1];
          Ok(if ExitMarked(Get(before, k)) && k != |before.order| - 1 then MarkEntryIn(before, k + 1) else before)
  }

  /** Statement `k` is an exit other than the last position, so the fourth loop marks `k + 1`. */
  predicate Opens(mapping: Mapping, k: int) {
    ExitMarked(Get(mapping, k)) && k != |mapping.order| - 1
  }

  /** The fourth loop marks `k + 1` and that key is new to the mapping. */
  predicate Adds(mapping: Mapping, k: int) {
    Opens(mapping, k) && k + 1 !in mapping.entries
  }

  /**
   * The fourth loop as it would go if the key set never changed: every
   * statement after an opening exit of the mapping it starts from is marked
   * as an entry. Entry marks leave exit marks alone, and the mapping keeps
   * its size exactly when no key adds a statement.
   */
  function EntriesAfterAll(mapping: Mapping, keys: seq<int>): (r: Mapping)
    ensures forall x {:trigger Get(r, x)} :: ExitMarked(Get(r, x)) == ExitMarked(Get(mapping, x))
    ensures |mapping.order| <= |r.order| && r.order[..|mapping.order|] == mapping.order
    ensures |r.order| == |mapping.order| ==> r.order == mapping.order
    decreases |keys|
  {
    if keys == [] then mapping
    else
      var k := keys[|keys| - 1];
      EntryAfter(mapping, EntriesAfterAll(mapping, keys[..|keys| - 1]), k)
  }

  /** One step of `EntriesAfterAll`: key `k` marks `k + 1` when it opens in the original mapping. */
  function EntryAfter(mapping: Mapping, before: Mapping, k: int): (r: Mapping)
    ensures forall x {:trigger Get(r, x)} :: (Get(r, x) ==
      if x == k + 1 && Opens(mapping, k) then Some(MarkedEntry(Get(before, x))) else Get(before, x))
    ensures r.order == if Opens(mapping, k) && k + 1 !in before.entries then before.order + [k + 1] else before.order
  {
    if Opens(mapping, k) then MarkEntryIn(before, k + 1) else before
  }

  /** The mapping keeps its size exactly when no key adds a statement. */
  lemma {:induction false} EntriesAfterSize(mapping: Mapping, keys: seq<int>)
    ensures |EntriesAfterAll(mapping, keys).order| == |mapping.order| <==> NoneAdds(mapping, keys)
    decreases |keys|
  {
    if keys != [] {
      var init := keys[..|keys| - 1];
      var k := keys[|keys| - 1];
      EntriesAfterSize(mapping, init);
      NoneAddsSnoc(mapping, keys);
      var before := EntriesAfterAll(mapping, init);
      assert EntriesAfterAll(mapping, keys) == EntryAfter(mapping, before, k);
    }
  }

  /** No key among `keys` adds a statement. */
  ghost predicate NoneAdds(mapping: Mapping, keys: seq<int>) {
    forall i :: 0 <= i < |keys| ==> !Adds(mapping, keys[i])
  }

  /** No key of `keys` adds a statement exactly when none of the earlier keys and not the last one does. */
  lemma NoneAddsSnoc(mapping: Mapping, keys: seq<int>)
    requires keys != []
    ensures NoneAdds(mapping, keys) <==> NoneAdds(mapping, keys[..|keys| - 1]) && !Adds(mapping, keys[|keys| - 1])
  {
    var init := keys[..|keys| - 1];
    assert forall i :: 0 <= i < |init| ==> init[i] == keys[i];
  }

  /** In a mapping numbered densely no key adds a statement: the key after an opening exit is already there. */
  lemma DenseNoneAdds(m: Mapping)
    requires Dense(m)
    ensures NoneAdds(m, m.order)
  {
    forall i | 0 <= i < |m.order|
      ensures !Adds(m, m.order[i])
    {
      assert m.order[i] in m.entries;
    }
  }

  /**
   * The fourth loop throws exactly when a key other than the last one it
   * visits adds a statement, and otherwise leaves what `EntriesAfterAll`
   * describes.
   */
  lemma {:induction false} EntriesAfterOk(mapping: Mapping, keys: seq<int>)
    ensures var r := MarkEntriesAfter(mapping, keys);
      (r.Ok? <==> forall i :: 0 <= i < |keys| - 1 ==> !Adds(mapping, keys[i]))
      && (r.Err? ==> r.error == ConcurrentModification)
      && (r.Ok? ==> r.value == EntriesAfterAll(mapping, keys))
    decreases |keys|
  {
    if keys != [] {
      var init := keys[..|keys| - 1];
      var k := keys[|keys| - 1];
      EntriesAfterOk(mapping, init);
      EntriesAfterSize(mapping, init);
      assert forall i :: 0 <= i < |init| ==> init[i] == keys[i];
      var all := EntriesAfterAll(mapping, init);
      if |all.order| == |mapping.order| {
        assert all.order == mapping.order;
        assert ExitMarked(Get(all, k)) == ExitMarked(Get(mapping, k));
      }
    }
  }

  /** Statement by statement, what the fourth loop leaves when it does not throw. */
  lemma {:induction false} EntriesAfterGet(mapping: Mapping, keys: seq<int>, x: int)
    ensures Get(EntriesAfterAll(mapping, keys), x) ==
      if (x - 1) in keys && Opens(mapping, x - 1) then Some(MarkedEntry(Get(mapping, x))) else Get(mapping, x)
    decreases |keys|
  {
    if keys == [] {
      assert (x - 1) !in keys;
    } else {
      var init := keys[..|keys| - 1];
      var k := keys[|keys| - 1];
      EntriesAfterGet(mapping, init, x);
      var before := EntriesAfterAll(mapping, init);
      var after := EntriesAfterAll(mapping, keys);
      assert after == EntryAfter(mapping, before, k);
      var hit := (x - 1) in init && Opens(mapping, x - 1);
      assert Get(before, x) == if hit then Some(MarkedEntry(Get(mapping, x))) else Get(mapping, x);
      InInit(keys, x - 1);
      if Opens(mapping, k) && x == k + 1 {
        MarkIdempotent(Get(mapping, x));
      }
    }
  }

  /** Once the fourth loop has thrown, the keys after do not matter. */
  lemma {:induction false} EntriesAfterStops(mapping: Mapping, keys: seq<int>, i: nat)
    requires i <= |keys| && MarkEntriesAfter(mapping, keys[..i]).Err?
    ensures MarkEntriesAfter(mapping, keys) == MarkEntriesAfter(mapping, keys[..i])
    decreases |keys| - i
  {
    if i < |keys| {
      EntriesAfterUnfold(mapping, keys, i);
      EntriesAfterStops(mapping, keys, i + 1);
    } else {
      assert keys[..i] == keys;
    }
  }

  /** The fourth loop over one more key: the step it takes after the earlier ones. */
  lemma EntriesAfterUnfold(mapping: Mapping, keys: seq<int>, n: nat)
    requires n < |keys|
    ensures MarkEntriesAfter(mapping, keys[..n + 1]) ==
      match MarkEntriesAfter(mapping, keys[..n])
      case Err(e) => Err(e)
      case Ok(before) =>
        if |before.order| != |mapping.order| then Err(ConcurrentModification)
        else Ok(if ExitMarked(Get(before, keys[n])) && keys[n] != |before.order| - 1 then MarkEntryIn(before, keys[n] + 1) else before)
  {
    assert keys[..n + 1][..n] == keys[..n];
  }

  /** Lines 144-158 of `run`: the second, third and fourth marking loops, from the marks the first one left. */
  function Completed(scanned: Mapping, dests: seq<int>): Result<Mapping> {
    var b := MarkEntries(scanned, dests);
    var c := MarkExitsBefore(b, b.order);
    MarkEntriesAfter(c, c.order)
  }

  /** Lines 130-158 of `run`: the four marking loops over the statements of `code`. */
  function MarkBoundaries(code: Code): Result<Marking> {
    match Scan(code, Blank)
    case Err(e) => Err(e)
    case Ok(t) =>
      match Completed(t.mapping, t.dests)
      case Err(e) => Err(e)
      case Ok(m) => Ok(t.(mapping := m))
  }

  /** The keys are exactly `0` to the size minus one, as renumbering leaves them. */
  ghost predicate Dense<V>(m: LinkedMap<int, V>) {
    forall k :: k in m.entries <==> 0 <= k < |m.order|
  }

  /** Every jump of `code` reads a target that is one of its statement numbers. */
  ghost predicate TargetsInside(code: Code) {
    forall k :: k in code.entries && HasJump(code.entries[k]) ==>
      GetJumpDest(code.entries[k]).Ok? && 0 <= GetJumpDest(code.entries[k]).value < |code.order|
  }

  /** When every jump target reads, the first loop over all of `code` succeeds. */
  lemma ScanAll(code: Code)
    requires TargetsInside(code)
    ensures Scan(code, Blank).Ok?
    ensures MarksScanned(JumpTarget, code, |code.order|, Scan(code, Blank).value.mapping)
    ensures JumpsScanned(JumpTarget, code, Scan(code, Blank).value)
  {
    var entries := Entries(code);
    ScanPrefix(JumpTarget, code, |code.order|);
    assert entries[..|code.order|] == entries;
    TargetsRead(code);
  }

  /** When every jump target reads, so does the target of each statement in turn. */
  lemma TargetsRead(code: Code)
    requires TargetsInside(code)
    ensures JumpsRead(JumpTarget, code, |code.order|)
  {
    var entries := Entries(code);
    forall j | 0 <= j < |code.order|
      ensures JumpTarget(entries[j].1).None? || JumpTarget(entries[j].1).value.Ok?
    {
      var k := entries[j].0;
      assert Get(code, k) == Some(entries[j].1);
      assert k in code.entries && code.entries[k] == entries[j].1;
      if HasJump(entries[j].1) {
        assert GetJumpDest(code.entries[k]).Ok?;
      }
    }
  }

  /** The mark the first loop leaves on the statement numbered `x`. */
  lemma ScanMarkOf(code: Code, m: Mapping, x: int)
    requires MarksScanned(JumpTarget, code, |code.order|, m) && x in code.entries
    ensures ScanMarked(Get(m, x), x, HasJump(code.entries[x]), |code.order|)
  {
    var j :| 0 <= j < |code.order| && code.order[j] == x;
    assert Entries(code)[j].0 == x && Entries(code)[j].1 == code.entries[x];
  }

  /** With statements numbered densely and targets among them, the last three loops add no statement and never throw. */
  lemma CompletedOk(a: Mapping, dests: seq<int>)
    requires Dense(a) && forall d :: d in dests ==> 0 <= d < |a.order|
    ensures Completed(a, dests).Ok? && Completed(a, dests).value.order == a.order
  {
    var b := MarkEntries(a, dests);
    forall k | k in b.entries
      ensures k in a.entries
    {
      assert Get(b, k).Some?;
    }
    SameKeysSameOrder(a, b);
    var c := MarkExitsBefore(b, b.order);
    assert c.order == a.order;
    assert Dense(c);
    DenseNoneAdds(c);
    EntriesAfterSize(c, c.order);
    EntriesAfterOk(c, c.order);
  }

  /**
   * With statements numbered densely and targets among them, statement `x`
   * ends a block exactly when it did after the first loop, a target follows
   * it or the statement after it began a block; it begins a block exactly
   * when it did after the first loop, it is a target or the statement
   * before it ends a block.
   */
  lemma CompletedMark(a: Mapping, dests: seq<int>, x: int)
    requires Dense(a) && forall d :: d in dests ==> 0 <= d < |a.order|
    requires 0 <= x < |a.order|
    ensures Completed(a, dests).Ok?
    ensures var m := Completed(a, dests).value;
      (ExitMarked(Get(m, x)) <==> ExitMarked(Get(a, x)) || (x + 1) in dests || EntryMarked(Get(a, x + 1)))
      && (EntryMarked(Get(m, x)) <==> EntryMarked(Get(a, x)) || x in dests || (0 < x && ExitMarked(Get(m, x - 1))))
  {
    CompletedOk(a, dests);
    var b := MarkEntries(a, dests);
    var c := MarkExitsBefore(b, b.order);
    var m := EntriesAfterAll(c, c.order);
    EntriesAfterOk(c, c.order);
    assert Completed(a, dests) == Ok(m);
    assert b.order == a.order && c.order == a.order;
    assert x in b.order;
    ExitsBeforeGet(b, b.order, x);
    EntriesAfterGet(c, c.order, x);
    assert (x - 1) in c.order <==> 0 < x;
    assert Get(b, x) == if x in dests then Some(MarkedEntry(Get(a, x))) else Get(a, x);
    assert Get(b, x + 1) == if (x + 1) in dests then Some(MarkedEntry(Get(a, x + 1))) else Get(a, x + 1);
    assert ExitMarked(Get(m, x)) == ExitMarked(Get(c, x));
    assert EntryMarked(Get(c, x)) == EntryMarked(Get(b, x));
    if 0 < x {
      assert ExitMarked(Get(m, x - 1)) == ExitMarked(Get(c, x - 1));
    }
  }

  /** With statements numbered densely and targets among them, the recorded targets are statement numbers. */
  lemma DestsInside(code: Code, t: Marking)
    requires TargetsInside(code) && JumpsScanned(JumpTarget, code, t)
    ensures forall d :: d in t.dests ==> 0 <= d < |code.order|
  {
    forall d | d in t.dests
      ensures 0 <= d < |code.order|
    {
      var k :| k in t.table && t.table[k] == d;
      assert JumpTarget(code.entries[k]) == Some(Ok(d));
    }
  }

  /**
   * The four marking loops over renumbered code whose jumps all land on a
   * statement: they do not throw, and afterwards statement `x` ends a block
   * exactly when it jumps, is the last one or is followed by a jump target,
   * and begins one exactly when it is the first, a jump target or follows
   * the end of a block.
   */
  lemma BoundaryMarks(code: Code, x: int)
    requires Dense(code) && TargetsInside(code) && 0 <= x < |code.order|
    ensures MarkBoundaries(code).Ok?
    ensures var r := MarkBoundaries(code).value;
      r.mapping.order == code.order
      && (ExitMarked(Get(r.mapping, x)) <==> HasJump(code.entries[x]) || x == |code.order| - 1 || (x + 1) in r.dests)
      && (EntryMarked(Get(r.mapping, x)) <==> x == 0 || x in r.dests || (0 < x && ExitMarked(Get(r.mapping, x - 1))))
  {
    ScanDense(code);
    var t := Scan(code, Blank).value;
    ScanMarkAt(code, x);
    if x + 1 < |code.order| {
      ScanMarkAt(code, x + 1);
    }
    CompletedBoundary(code, t.mapping, t.dests, x);
    assert MarkBoundaries(code) == Ok(t.(mapping := Completed(t.mapping, t.dests).value));
  }

  /** The marks after the last three loops, from the marks the first one left on `x` and on the statement after it. */
  lemma CompletedBoundary(code: Code, a: Mapping, dests: seq<int>, x: int)
    requires Dense(code) && a.order == code.order && Dense(a) && 0 <= x < |code.order|
    requires forall d :: d in dests ==> 0 <= d < |a.order|
    requires ScanMarked(Get(a, x), x, HasJump(code.entries[x]), |code.order|)
    requires x + 1 < |code.order| ==> ScanMarked(Get(a, x + 1), x + 1, HasJump(code.entries[x + 1]), |code.order|)
    ensures Completed(a, dests).Ok?
    ensures var m := Completed(a, dests).value;
      m.order == code.order
      && (ExitMarked(Get(m, x)) <==> HasJump(code.entries[x]) || x == |code.order| - 1 || (x + 1) in dests)
      && (EntryMarked(Get(m, x)) <==> x == 0 || x in dests || (0 < x && ExitMarked(Get(m, x - 1))))
  {
    CompletedOk(a, dests);
    CompletedMark(a, dests, x);
    if x + 1 == |code.order| {
      assert x + 1 !in a.entries;
    }
  }

  /** The first loop over renumbered code keeps its statements and records only statement numbers as targets. */
  lemma ScanDense(code: Code)
    requires Dense(code) && TargetsInside(code)
    ensures Scan(code, Blank).Ok?
    ensures var t := Scan(code, Blank).value;
      t.mapping.order == code.order && Dense(t.mapping) && forall d :: d in t.dests ==> 0 <= d < |code.order|
  {
    ScanAll(code);
    var t := Scan(code, Blank).value;
    assert t.mapping.order == code.order[..|code.order|] == code.order;
    DestsInside(code, t);
  }

  /** The mark the first loop over code whose targets read leaves on statement `x`. */
  lemma ScanMarkAt(code: Code, x: int)
    requires TargetsInside(code) && x in code.entries
    ensures Scan(code, Blank).Ok?
    ensures ScanMarked(Get(Scan(code, Blank).value.mapping, x), x, HasJump(code.entries[x]), |code.order|)
  {
    ScanAll(code);
    ScanMarkOf(code, Scan(code, Blank).value.mapping, x);
  }

  /** The four marking loops over renumbered code whose jumps all land on a statement do not throw or add a statement. */
  lemma BoundariesOk(code: Code)
    requires Dense(code) && TargetsInside(code)
    ensures MarkBoundaries(code).Ok? && MarkBoundaries(code).value.mapping.order == code.order
  {
    ScanDense(code);
    var t := Scan(code, Blank).value;
    CompletedOk(t.mapping, t.dests);
  }

  /** The target of every jump is among the recorded targets. */
  lemma TargetRecorded(code: Code, k: int)
    requires Dense(code) && TargetsInside(code) && k in code.entries && HasJump(code.entries[k])
    ensures MarkBoundaries(code).Ok? && GetJumpDest(code.entries[k]).value in MarkBoundaries(code).value.dests
  {
    BoundariesOk(code);
    ScanAll(code);
    var t := Scan(code, Blank).value;
    assert k in t.table && t.table[k] == GetJumpDest(code.entries[k]).value;
  }

  /**
   * The block boundaries agree: the first statement begins a block, the
   * last ends one, a jump ends its block and its target begins one, and a
   * statement ends a block exactly when the next begins one.
   */
  lemma BoundariesAgree(code: Code)
    requires Dense(code) && TargetsInside(code)
    ensures MarkBoundaries(code).Ok?
    ensures var m := MarkBoundaries(code).value.mapping;
      (|code.order| > 0 ==> EntryMarked(Get(m, 0)) && ExitMarked(Get(m, |code.order| - 1)))
      && (forall k :: 0 <= k < |code.order| - 1 ==> (ExitMarked(Get(m, k)) <==> EntryMarked(Get(m, k + 1))))
      && (forall k :: k in code.entries && HasJump(code.entries[k]) ==>
            ExitMarked(Get(m, k)) && EntryMarked(Get(m, GetJumpDest(code.entries[k]).value)))
  {
    BoundariesOk(code);
    var r := MarkBoundaries(code).value;
    forall x | 0 <= x < |code.order|
      ensures BoundaryAt(code, r, x)
    {
      BoundaryMarks(code, x);
    }
    forall k | k in code.entries && HasJump(code.entries[k])
      ensures GetJumpDest(code.entries[k]).value in r.dests
    {
      TargetRecorded(code, k);
    }
    MarksAgree(code, r);
  }

  /** The marks `BoundaryMarks` describes for statement `x`. */
  predicate BoundaryAt(code: Code, r: Marking, x: int)
    requires Dense(code) && 0 <= x < |code.order|
  {
    (ExitMarked(Get(r.mapping, x)) <==> HasJump(code.entries[x]) || x == |code.order| - 1 || (x + 1) in r.dests)
    && (EntryMarked(Get(r.mapping, x)) <==> x == 0 || x in r.dests || (0 < x && ExitMarked(Get(r.mapping, x - 1))))
  }

  /** Marks as `BoundaryMarks` describes them, with every jump target recorded, agree at every boundary. */
  lemma MarksAgree(code: Code, r: Marking)
    requires Dense(code) && TargetsInside(code)
    requires forall x :: 0 <= x < |code.order| ==> BoundaryAt(code, r, x)
    requires forall k :: k in code.entries && HasJump(code.entries[k]) ==> GetJumpDest(code.entries[k]).value in r.dests
    ensures var m := r.mapping;
      (|code.order| > 0 ==> EntryMarked(Get(m, 0)) && ExitMarked(Get(m, |code.order| - 1)))
      && (forall k :: 0 <= k < |code.order| - 1 ==> (ExitMarked(Get(m, k)) <==> EntryMarked(Get(m, k + 1))))
      && (forall k :: k in code.entries && HasJump(code.entries[k]) ==>
            ExitMarked(Get(m, k)) && EntryMarked(Get(m, GetJumpDest(code.entries[k]).value)))
  {
    var n := |code.order|;
    var m := r.mapping;
    if n > 0 {
      assert BoundaryAt(code, r, 0) && BoundaryAt(code, r, n - 1);
    }
    forall k | 0 <= k < n - 1
      ensures ExitMarked(Get(m, k)) <==> EntryMarked(Get(m, k + 1))
    {
      assert BoundaryAt(code, r, k) && BoundaryAt(code, r, k + 1);
    }
    forall k | k in code.entries && HasJump(code.entries[k])
      ensures ExitMarked(Get(m, k)) && EntryMarked(Get(m, GetJumpDest(code.entries[k]).value))
    {
      assert BoundaryAt(code, r, k) && BoundaryAt(code, r, GetJumpDest(code.entries[k]).value);
    }
  }

  /**
   * Renumbered code is what the boundary marking needs: its statements are
   * numbered densely, and every jump lands on one of them, since a target
   * past the last statement becomes statement 0.
   */
  lemma RenumberedReady(code: Code)
    requires Renumber(code).Ok? && |code.order| <= MaxInt
    ensures Dense(Renumber(code).value) && TargetsInside(Renumber(code).value)
  {
    var sorted := SortedKeys(code.order);
    var c := Renumber(code).value;
    RenumberDense(code);
    SortedKeysCount(code.order);
    forall k | k in c.entries && HasJump(c.entries[k])
      ensures GetJumpDest(c.entries[k]).Ok? && 0 <= GetJumpDest(c.entries[k]).value < |c.order|
    {
      var i :| 0 <= i < |c.order| && c.order[i] == k;
      RenumberKeeps(code, i);
      var instr := code.entries[code.order[i]];
      assert c.entries[k] == Retarget(instr, sorted).value;
      assert HasJump(instr);
      RetargetJumpDest(instr, sorted);
    }
  }

  /**
   * Lines 68-107 of `run`: the first method's statements after copy
   * propagation, the rewriting of jumps and void calls and the removal of
   * stack assignments, still under their byte indices. A class without
   * methods has no first method to read.
   */
  function Unnumbered(methods: seq<seq<Byte>>, pool: Pool, fuel: nat): Result<Code> {
    match TranslateAll(methods, pool)
    case Err(e) => Err(e)
    case Ok(ts) =>
      if ts == [] then Err(IndexOutOfBounds)
      else
        match Propagate(PropState(ts[0].code, Empty()), fuel)
        case Err(e) => Err(e)
        case Ok(s) => Ok(WithoutStackAssignments(ResolveAll(s.code, s.vars)))
  }

  /** Lines 68-127 of `run`: the statements of `Unnumbered`, renumbered. */
  function Prepare(methods: seq<seq<Byte>>, pool: Pool, fuel: nat): Result<Code> {
    match Unnumbered(methods, pool, fuel)
    case Err(e) => Err(e)
    case Ok(code) => Renumber(code)
  }

  /** Dropping keys keeps the non-negative ones that stay in increasing order. */
  lemma {:induction false} WithoutForward(s: seq<int>, drop: set<int>)
    requires IncreasingNonNegative(s)
    ensures IncreasingNonNegative(Without(s, drop))
    decreases |s|
  {
    if s != [] {
      var rest := Without(s[1..], drop);
      assert IncreasingNonNegative(s[1..]) by {
        forall i, j | 0 <= i < j < |s[1..]| && 0 <= s[1..][i] && 0 <= s[1..][j]
          ensures s[1..][i] < s[1..][j]
        {
          assert s[1..][i] == s[i + 1] && s[1..][j] == s[j + 1];
        }
      }
      WithoutForward(s[1..], drop);
      if s[0] !in drop {
        var r := [s[0]] + rest;
        forall i, j | 0 <= i < j < |r| && 0 <= r[i] && 0 <= r[j]
          ensures r[i] < r[j]
        {
          if i == 0 {
            assert r[j] == rest[j - 1] && rest[j - 1] in s[1..];
            var k :| 0 <= k < |s[1..]| && s[1..][k] == r[j];
            assert s[k + 1] == r[j];
          } else {
            assert r[i] == rest[i - 1] && r[j] == rest[j - 1];
          }
        }
      }
    }
  }

  /** The rewriting of jumps and void calls and the removal of stack assignments keep some keys, in their order. */
  lemma RemovalKeepsKeys(code: Code, vars: Vars)
    requires NamesNonEmpty(Entries(vars))
    ensures var c := WithoutStackAssignments(ResolveAll(code, vars));
      (forall i :: 0 <= i < |c.order| ==> c.order[i] in code.entries)
      && (IncreasingNonNegative(code.order) ==> IncreasingNonNegative(c.order))
  {
    var resolved := ResolveAll(code, vars);
    var c := WithoutStackAssignments(resolved);
    forall i | 0 <= i < |c.order|
      ensures c.order[i] in code.entries
    {
      assert c.order[i] in resolved.order;
    }
    if IncreasingNonNegative(code.order) {
      WithoutForward(resolved.order, StackAssignmentKeys(resolved));
    }
  }

  /**
   * Copy propagation, the rewriting of jumps and void calls and the removal
   * of stack assignments keep some of the statements' keys, in their order.
   */
  lemma StagesKeepKeys(code: Code, fuel: nat)
    requires Propagate(PropState(code, Empty()), fuel).Ok?
    ensures var s := Propagate(PropState(code, Empty()), fuel).value;
      var c := WithoutStackAssignments(ResolveAll(s.code, s.vars));
      (forall i :: 0 <= i < |c.order| ==> c.order[i] in code.entries)
      && (IncreasingNonNegative(code.order) ==> IncreasingNonNegative(c.order))
  {
    var s := Propagate(PropState(code, Empty()), fuel).value;
    PropagateKeeps(PropState(code, Empty()), fuel);
    RemovalKeepsKeys(s.code, s.vars);
  }

  /**
   * Before renumbering, every statement sits under a byte index of the
   * first method or under the negative shadow key of a `SWAP`, and the
   * byte indices are listed in increasing order.
   */
  lemma UnnumberedKeys(methods: seq<seq<Byte>>, pool: Pool, fuel: nat)
    requires Unnumbered(methods, pool, fuel).Ok?
    ensures |methods| > 0
    ensures var c := Unnumbered(methods, pool, fuel).value;
      IncreasingNonNegative(c.order)
      && forall i :: 0 <= i < |c.order| ==> -|methods[0]| <= c.order[i] < |methods[0]|
  {
    var ts := TranslateAll(methods, pool).value;
    assert Translator(pool)(methods[0]) == Ok(ts[0]);
    var t := ts[0];
    MethodForward(pool, methods[0]);
    StagesKeepKeys(t.code, fuel);
    var c := Unnumbered(methods, pool, fuel).value;
    forall i | 0 <= i < |c.order|
      ensures -|methods[0]| <= c.order[i] < |methods[0]|
    {
      MethodBounds(pool, methods[0], c.order[i]);
    }
  }

  /** No statement sits under the negative shadow key of a `SWAP`. */
  predicate NoShadowKeys(code: Code) {
    forall i :: 0 <= i < |code.order| ==> 0 <= code.order[i]
  }

  /**
   * The code `run` cuts into blocks, when no shadow key of a `SWAP` is left
   * before renumbering and the first method is at most `MaxInt` bytes long:
   * its statements are numbered `0..N-1` in increasing order, and every jump
   * lands on one of them.
   */
  lemma PreparedReady(methods: seq<seq<Byte>>, pool: Pool, fuel: nat)
    requires Prepare(methods, pool, fuel).Ok?
    requires NoShadowKeys(Unnumbered(methods, pool, fuel).value)
    requires |methods[0]| <= MaxInt
    ensures var code := Prepare(methods, pool, fuel).value;
      Dense(code) && TargetsInside(code) && Increasing(code.order)
  {
    var c := Unnumbered(methods, pool, fuel).value;
    UnnumberedKeys(methods, pool, fuel);
    IncreasingBound(c.order, 0, |methods[0]|);
    RenumberedReady(c);
    RenumberIncreasing(c);
  }

  /** Lines 35-127 of `run`: the statements of the first method, ready to be cut into blocks. */
  method PrepareCode(methods: seq<seq<Byte>>, pool: Pool, fuel: nat) returns (r: Result<Code>)
    ensures r == Prepare(methods, pool, fuel)
  {
    var intermediateCodes := ReadMethods(methods, pool);
    if intermediateCodes.Err? {
      return Err(intermediateCodes.error);
    }
    if intermediateCodes.value == [] {
      return Err(IndexOutOfBounds);
    }
    var intermediateCode := intermediateCodes.value[0];
    var stackVars := CopyPropagation(intermediateCode, fuel);
    if stackVars.Err? {
      return Err(stackVars.error);
    }
    ResolveConditions(intermediateCode, stackVars.value);
    intermediateCode.RemoveStackVar();
    var error := RenumberCode(intermediateCode);
    if error.Some? {
      return Err(error.value);
    }
    return Ok(intermediateCode.code);
  }

  /** `jumpTable[blockEnd - 1]`: the target of the jump on the statement before `blockEnd`, or null. */
  function JumpAt(table: map<int, int>, blockEnd: int): (r: Option<int>)
    ensures r.Some? <==> blockEnd - 1 in table
  {
    if blockEnd - 1 in table then Some(table[blockEnd - 1]) else None
  }

  /** Lines 174-176 of `run`: the statements of `code` numbered `blockStart` up to, not including, `blockEnd`. */
  method CollectBlock(code: Code, blockStart: int, blockEnd: int) returns (basicBlockCode: Code)
    ensures basicBlockCode == BlockCode(code, blockStart, blockEnd)
  {
    basicBlockCode := Empty();
    var i := blockStart;
    while i < blockEnd
      invariant i == blockStart || blockStart <= i <= blockEnd
      invariant basicBlockCode == BlockCode(code, blockStart, i)
      decreases blockEnd - i
    {
      var stmt := Get(code, i);
      if stmt.Some? {
        basicBlockCode := Put(basicBlockCode, i, stmt.value);
      }
      i := i + 1;
    }
  }

  /** Lines 185-190 of `run`: the block falls through unless one of its statements is a `goto` outside an `if (`. */
  method IsConditionalJump(block: BasicBlock) returns (isConditionalJump: bool)
    ensures isConditionalJump == FallsThrough(block.code)
  {
    var values := Values(block.code);
    isConditionalJump := true;
    var i := 0;
    while i < |values|
      invariant 0 <= i <= |values|
      invariant forall j :: 0 <= j < i ==> !(Contains(values[j], "goto") && !Contains(values[j], "if ("))
    {
      if Contains(values[i], "goto") && !Contains(values[i], "if (") {
        assert Get(block.code, block.code.order[i]) == Some(values[i]);
        isConditionalJump := false;
        return;
      }
      i := i + 1;
    }
    forall k | k in block.code.entries
      ensures !(Contains(block.code.entries[k], "goto") && !Contains(block.code.entries[k], "if ("))
    {
      assert Get(block.code, k).Some?;
      var j :| 0 <= j < |block.code.order| && block.code.order[j] == k;
      assert Get(block.code, block.code.order[j]) == Some(values[j]);
    }
  }

  /** The statements of every node's block, in node order. */
  function BlockCodes(nodes: seq<CFNode>): (codes: seq<Code>)
    reads BlocksOf(nodes)
    ensures |codes| == |nodes| && forall i :: 0 <= i < |nodes| ==> codes[i] == nodes[i].block.code
  {
    seq(|nodes|, i requires 0 <= i < |nodes| reads BlocksOf(nodes) => nodes[i].block.code)
  }

  /**
   * Lines 196-200 of `run`: every node whose block holds `blockReference`
   * becomes the right child in turn, so the last such node wins; with none,
   * `current` stays.
   */
  method FindJumpNode(nodes: seq<CFNode>, blockReference: int, current: Option<nat>) returns (right: Option<nat>)
    ensures right == if LastHolding(BlockCodes(nodes), blockReference).Some? then LastHolding(BlockCodes(nodes), blockReference) else current
  {
    ghost var codes := BlockCodes(nodes);
    right := current;
    var j := 0;
    while j < |nodes|
      invariant 0 <= j <= |nodes|
      invariant right == if LastHolding(codes[..j], blockReference).Some? then LastHolding(codes[..j], blockReference) else current
    {
      assert codes[..j + 1][..j] == codes[..j];
      if nodes[j].block.ContainsByteIndex(blockReference) {
        right := Some(j);
      }
      j := j + 1;
    }
    assert codes[..j] == codes;
  }

  /**
   * Node `i` once `run` has linked it, given the statements `codes` of
   * every block: the next node as left child when it is not the last and
   * its block falls through, and as right child the last node whose block
   * holds its jump target; an edge not set stays as it was.
   */
  function LinkedNode(nodes: seq<CFNode>, codes: seq<Code>, i: nat): (r: CFNode)
    requires i < |nodes| == |codes|
    ensures r.block == nodes[i].block
    ensures r.left.Some? && r.left != nodes[i].left ==> r.left == Some(i + 1) && i + 1 < |nodes| && FallsThrough(codes[i])
    ensures r.right.Some? && r.right != nodes[i].right ==>
      nodes[i].block.jumpTo.Some? && r.right.value < |nodes| && nodes[i].block.jumpTo.value in codes[r.right.value].entries
  {
    var node := nodes[i];
    var left := if i + 1 < |nodes| && FallsThrough(codes[i]) then Some(i + 1) else node.left;
    var holder := if node.block.jumpTo.Some? then LastHolding(codes, node.block.jumpTo.value) else None;
    node.(left := left, right := if holder.Some? then holder else node.right)
  }

  /** Lines 182-201 of `run`: every node linked in turn; blocks are not touched. */
  method ConnectNodes(nodes: seq<CFNode>) returns (linked: seq<CFNode>)
    ensures |linked| == |nodes|
    ensures forall i :: 0 <= i < |nodes| ==> linked[i] == LinkedNode(nodes, BlockCodes(nodes), i)
  {
    ghost var codes := BlockCodes(nodes);
    linked := nodes;
    var index := 0;
    while index < |nodes|
      invariant 0 <= index <= |nodes| && |linked| == |nodes|
      invariant forall i :: index <= i < |nodes| ==> linked[i] == nodes[i]
      invariant forall i :: 0 <= i < index ==> linked[i] == LinkedNode(nodes, codes, i)
    {
      var node := nodes[index];
      if index + 1 <= |nodes| - 1 {
        var isConditionalJump := IsConditionalJump(node.block);
        assert isConditionalJump == FallsThrough(codes[index]);
        if isConditionalJump {
          node := node.(left := Some(index + 1));
        }
      }
      var blockReference := node.block.jumpTo;
      if blockReference.Some? {
        var right := FindJumpNode(nodes, blockReference.value, node.right);
        assert BlockCodes(nodes) == codes;
        node := node.(right := right);
      }
      linked := linked[index := node];
      index := index + 1;
    }
  }

  /**
   * The nodes `run` builds from renumbered `code`, block starts `starts`
   * and jump table `table`: node `i` holds block `i` of the cut, with the
   * jump of the statement before the block's end, a left edge to the next
   * node when the block falls through, and a right edge to the last block
   * holding the jump target.
   */
  ghost predicate Built(nodes: seq<CFNode>, code: Code, starts: seq<int>, table: map<int, int>)
    reads BlocksOf(nodes)
  {
    |nodes| == |starts|
    && forall i :: 0 <= i < |nodes| ==>
      var jumpTo := JumpAt(table, BlockEnd(starts, i, |code.order|));
      nodes[i].block.code == Cut(code, starts)[i]
      && nodes[i].block.jumpTo == jumpTo
      && nodes[i].left == (if i + 1 < |nodes| && FallsThrough(Cut(code, starts)[i]) then Some(i + 1) else None)
      && nodes[i].right == (if jumpTo.Some? then LastHolding(Cut(code, starts), jumpTo.value) else None)
  }

  /**
   * The nodes of lines 168-178 of `run`, before any edge: node `i` holds
   * block `i` of the cut and the jump of the statement before the block's
   * end, and is not a loop header.
   */
  ghost predicate Partitioned(nodes: seq<CFNode>, code: Code, starts: seq<int>, table: map<int, int>)
    reads BlocksOf(nodes)
  {
    |nodes| == |starts|
    && forall i :: 0 <= i < |nodes| ==>
      nodes[i].block.code == Cut(code, starts)[i]
      && nodes[i].block.jumpTo == JumpAt(table, BlockEnd(starts, i, |code.order|))
      && nodes[i].left.None? && nodes[i].right.None? && !nodes[i].block.isHeader
  }

  /** Linking the partitioned nodes builds the graph of `Built`. */
  lemma LinkPartitioned(nodes: seq<CFNode>, linked: seq<CFNode>, code: Code, starts: seq<int>, table: map<int, int>)
    requires Partitioned(nodes, code, starts, table)
    requires |linked| == |nodes| && forall i :: 0 <= i < |nodes| ==> linked[i] == LinkedNode(nodes, BlockCodes(nodes), i)
    ensures Built(linked, code, starts, table)
  {
    assert BlockCodes(nodes) == Cut(code, starts);
    assert BlocksOf(linked) == BlocksOf(nodes) by {
      forall b | b in BlocksOf(linked) ensures b in BlocksOf(nodes) {
        var h :| 0 <= h < |linked| && linked[h].block == b;
        assert nodes[h].block == b;
      }
      forall b | b in BlocksOf(nodes) ensures b in BlocksOf(linked) {
        var h :| 0 <= h < |nodes| && nodes[h].block == b;
        assert linked[h].block == b;
      }
    }
  }

  /** Every edge of the built nodes names one of them, so they form a closed arena. */
  lemma BuiltClosed(nodes: seq<CFNode>, code: Code, starts: seq<int>, table: map<int, int>)
    requires Built(nodes, code, starts, table)
    ensures ClosedArena(nodes)
  {
    forall h | 0 <= h < |nodes|
      ensures ChildrenBelow(nodes[h], |nodes|)
    {
      var jumpTo := JumpAt(table, BlockEnd(starts, h, |code.order|));
      if jumpTo.Some? {
        assert |Cut(code, starts)| == |nodes|;
      }
    }
  }

  /**
   * With increasing block starts, the jump edge of a block lands on the one
   * block whose range holds the target, when the target lies before the
   * last statement; a jump to the last statement, which no block holds,
   * gets no edge.
   */
  lemma JumpEdgeLands(nodes: seq<CFNode>, code: Code, starts: seq<int>, table: map<int, int>, i: nat)
    requires Built(nodes, code, starts, table)
    requires Increasing(starts) && |starts| > 0 && starts[|starts| - 1] < |code.order|
    requires i < |nodes| && nodes[i].block.jumpTo.Some? && nodes[i].block.jumpTo.value in code.entries
    ensures var target := nodes[i].block.jumpTo.value;
      (starts[0] <= target < |code.order| - 1 ==>
        nodes[i].right == Some(Owner(starts, |starts|, target))
        && InBlock(starts, Owner(starts, |starts|, target), |code.order|, target))
      && (target == |code.order| - 1 ==> nodes[i].right == None)
  {
    var target := nodes[i].block.jumpTo.value;
    JumpLandsInOwner(code, starts, target);
    BlocksPartition(starts, |code.order|, target);
  }

  /** The entry-marked keys of an increasing key list are increasing. */
  lemma {:induction false} EntryKeysIncreasing(mapping: Mapping, keys: seq<int>)
    requires Increasing(keys)
    ensures Increasing(EntryKeys(mapping, keys))
    decreases |keys|
  {
    if keys != [] {
      var init := keys[..|keys| - 1];
      var last := keys[|keys| - 1];
      EntryKeysIncreasing(mapping, init);
      var rest := EntryKeys(mapping, init);
      forall i | 0 <= i < |rest|
        ensures rest[i] < last
      {
        assert rest[i] in init;
      }
    }
  }

  /**
   * Code numbered `0..N-1` in increasing order, whose jumps land on its
   * statements, is marked without error, and its block starts increase from
   * statement 0 and are statement numbers; there are none only when there
   * are no statements.
   */
  lemma ReadyBlocks(code: Code)
    requires Dense(code) && TargetsInside(code) && Increasing(code.order)
    ensures MarkBoundaries(code).Ok?
    ensures var t := MarkBoundaries(code).value;
      var starts := EntryKeys(t.mapping, t.mapping.order);
      (starts == [] <==> code.order == [])
      && Increasing(starts)
      && (starts != [] ==> starts[0] == 0 && starts[|starts| - 1] < |code.order|)
  {
    BoundariesOk(code);
    var t := MarkBoundaries(code).value;
    var starts := EntryKeys(t.mapping, t.mapping.order);
    EntryKeysIncreasing(t.mapping, code.order);
    if code.order != [] {
      BoundaryMarks(code, 0);
      assert 0 in code.order;
      assert 0 in starts;
      assert starts[0] in code.order;
      assert starts[|starts| - 1] in code.order;
    }
  }

  /** Every entry of the jump table is a jumping statement and its target, one of the statements. */
  lemma TableTargets(code: Code, t: Marking)
    requires Dense(code) && TargetsInside(code) && MarkBoundaries(code) == Ok(t)
    ensures forall k :: k in t.table ==>
      k in code.entries && HasJump(code.entries[k]) && GetJumpDest(code.entries[k]) == Ok(t.table[k])
      && 0 <= t.table[k] < |code.order| && t.table[k] in code.entries
  {
    ScanAll(code);
    var scanned := Scan(code, Blank).value;
    assert t.table == scanned.table;
    forall k | k in t.table
      ensures k in code.entries && HasJump(code.entries[k]) && GetJumpDest(code.entries[k]) == Ok(t.table[k])
    {
      assert JumpTarget(code.entries[k]) == Some(Ok(t.table[k]));
    }
  }

  /**
   * Block starts and a jump table fit for cutting `code`: the statements are
   * numbered `0..N-1`; the starts increase from statement 0 and are
   * statement numbers, and there are some exactly when there are
   * statements; the table maps each jumping statement to its target, itself
   * a statement.
   */
  ghost predicate CutReady(code: Code, starts: seq<int>, table: map<int, int>) {
    Dense(code)
    && Increasing(starts)
    && (starts == [] <==> code.order == [])
    && (starts != [] ==> starts[0] == 0 && starts[|starts| - 1] < |code.order|)
    && forall k :: k in table ==>
      k in code.entries && HasJump(code.entries[k]) && GetJumpDest(code.entries[k]) == Ok(table[k])
      && 0 <= table[k] < |code.order| && table[k] in code.entries
  }

  /** The marking of code numbered `0..N-1` in increasing order, whose jumps land on its statements, is fit to cut it by. */
  lemma ReadyCut(code: Code, t: Marking, starts: seq<int>)
    requires Dense(code) && TargetsInside(code) && Increasing(code.order)
    requires MarkBoundaries(code) == Ok(t) && starts == EntryKeys(t.mapping, t.mapping.order)
    ensures CutReady(code, starts, t.table)
  {
    ReadyBlocks(code);
    TableTargets(code, t);
  }

  /**
   * When no shadow key of a `SWAP` is left before renumbering and the first
   * method is at most `MaxInt` bytes long, the marking of the code `run`
   * cuts is fit to cut it by.
   */
  lemma PreparedCutReady(methods: seq<seq<Byte>>, pool: Pool, fuel: nat, t: Marking, starts: seq<int>)
    requires Prepare(methods, pool, fuel).Ok?
    requires NoShadowKeys(Unnumbered(methods, pool, fuel).value)
    requires |methods[0]| <= MaxInt
    requires MarkBoundaries(Prepare(methods, pool, fuel).value) == Ok(t) && starts == EntryKeys(t.mapping, t.mapping.order)
    ensures CutReady(Prepare(methods, pool, fuel).value, starts, t.table)
  {
    PreparedReady(methods, pool, fuel);
    ReadyCut(Prepare(methods, pool, fuel).value, t, starts);
  }

  /**
   * In a graph built by cutting `code` at starts fit for it, every
   * statement but the last lies in exactly one node's block, the last
   * block starting at or before it; the last statement lies in none.
   */
  lemma BuiltBlocksPartition(nodes: seq<CFNode>, code: Code, starts: seq<int>, table: map<int, int>, x: int)
    requires Built(nodes, code, starts, table) && CutReady(code, starts, table)
    requires 0 <= x < |code.order|
    ensures |nodes| == |starts| > 0 && starts[0] == 0
    ensures x < |code.order| - 1 ==>
      var o := Owner(starts, |starts|, x);
      x in nodes[o].block.code.entries && forall j :: 0 <= j < |nodes| && x in nodes[j].block.code.entries ==> j == o
    ensures x == |code.order| - 1 ==> forall j :: 0 <= j < |nodes| ==> x !in nodes[j].block.code.entries
  {
    BlocksPartition(starts, |code.order|, x);
    forall j | 0 <= j < |nodes|
      ensures x in nodes[j].block.code.entries <==> InBlock(starts, j, |code.order|, x) && x in code.entries
    {
      assert nodes[j].block.code == Cut(code, starts)[j];
      assert Get(nodes[j].block.code, x) == if InBlock(starts, j, |code.order|, x) then Get(code, x) else None;
    }
  }

  /** A built node's jump target is the jump table's entry for the statement before the node's block ends. */
  lemma BuiltJumpSource(nodes: seq<CFNode>, code: Code, starts: seq<int>, table: map<int, int>, i: nat)
    requires Built(nodes, code, starts, table)
    requires i < |nodes| && nodes[i].block.jumpTo.Some?
    ensures i < |starts|
    ensures var source := BlockEnd(starts, i, |code.order|) - 1;
      source in table && table[source] == nodes[i].block.jumpTo.value
  {
    assert nodes[i].block.jumpTo == JumpAt(table, BlockEnd(starts, i, |code.order|));
  }

  /**
   * In a graph built by cutting `code` with starts and a jump table fit for
   * it, a block's jump target is the target of the jump on the statement
   * before the block's end, one of the statements; the right edge goes to
   * the one block that holds it, or nowhere when it is the last statement.
   */
  lemma BuiltJumpsLand(nodes: seq<CFNode>, code: Code, starts: seq<int>, table: map<int, int>, i: nat)
    requires Built(nodes, code, starts, table) && CutReady(code, starts, table)
    requires i < |nodes| && nodes[i].block.jumpTo.Some?
    ensures |nodes| == |starts| > 0 && starts[0] == 0
    ensures var source := BlockEnd(starts, i, |code.order|) - 1;
      source in code.entries && HasJump(code.entries[source]) && GetJumpDest(code.entries[source]) == Ok(nodes[i].block.jumpTo.value)
    ensures var target := nodes[i].block.jumpTo.value;
      0 <= target < |code.order|
      && (target < |code.order| - 1 ==>
        nodes[i].right == Some(Owner(starts, |starts|, target)) && InBlock(starts, Owner(starts, |starts|, target), |code.order|, target))
      && (target == |code.order| - 1 ==> nodes[i].right == None)
  {
    BuiltJumpSource(nodes, code, starts, table, i);
    JumpEdgeLands(nodes, code, starts, table, i);
  }

  /** The printed block of a child: its text, or `null` when there is none. */
  function ChildBlockText(texts: seq<string>, c: Option<nat>): (r: string)
    ensures c.None? ==> r == "null"
    ensures c.Some? && c.value < |texts| ==> r == texts[c.value]
  {
    if c.None? then "null" else if c.value < |texts| then texts[c.value] else ""
  }

  /** The line that opens the section of node `index`. */
  function SectionHead(index: nat): string {
    "BLOCK " + IntToString(index) + "\n"
  }

  /** The banner that closes every section of `getCFGContent`, 32 equals signs, with the blank lines around it. */
  const SectionTail: string := "\n================================\n\n"

  /** The block's text and its two children's, each under its label. */
  function SectionBody(text: string, left: string, right: string): string {
    text + "\n" + "LEFT\n" + left + "\n" + "RIGHT\n" + right + "\n"
  }

  /** Lines 255-258 of `getCFGContent`: the section of node `index`, from its block's text and its children's. */
  function Section(index: nat, text: string, left: string, right: string): string {
    SectionHead(index) + SectionBody(text, left, right) + SectionTail
  }

  /** The section for node `index`, given the text of every block. */
  function CFGSection(nodes: seq<CFNode>, texts: seq<string>, index: nat): string
    requires |texts| == |nodes| && index < |nodes|
  {
    Section(index, texts[index], ChildBlockText(texts, nodes[index].left), ChildBlockText(texts, nodes[index].right))
  }

  /** The first `n` of `parts`, one after another. */
  function Concat(parts: seq<string>, n: nat): string
    requires n <= |parts|
  {
    if n == 0 then "" else Concat(parts, n - 1) + parts[n - 1]
  }

  /** The section of every node, in list order. */
  function Sections(nodes: seq<CFNode>, texts: seq<string>): (r: seq<string>)
    requires |texts| == |nodes|
    ensures |r| == |nodes| && forall i :: 0 <= i < |nodes| ==> r[i] == CFGSection(nodes, texts, i)
  {
    seq(|nodes|, i requires 0 <= i < |nodes| => CFGSection(nodes, texts, i))
  }

  /** The sections of the first `n` nodes, in list order. */
  function CFGContent(nodes: seq<CFNode>, texts: seq<string>, n: nat): string
    requires |texts| == |nodes| && n <= |nodes|
  {
    Concat(Sections(nodes, texts), n)
  }

  /** The first `m` parts followed by part `m` start the first `n` parts. */
  lemma {:induction false} ConcatPrefix(parts: seq<string>, m: nat, n: nat)
    requires m < n <= |parts|
    ensures var s := Concat(parts, m) + parts[m];
      |s| <= |Concat(parts, n)| && Concat(parts, n)[..|s|] == s
    decreases n - m
  {
    if m + 1 < n {
      ConcatPrefix(parts, m, n - 1);
      PrefixOfAppend(Concat(parts, n - 1), parts[n - 1], Concat(parts, m) + parts[m]);
    }
  }

  /** The text for the first `index + 1` nodes: that for the first `index`, then node `index`'s section. */
  lemma ContentStep(nodes: seq<CFNode>, texts: seq<string>, index: nat, content: string, section: string)
    requires |texts| == |nodes| && index < |nodes|
    requires content == CFGContent(nodes, texts, index) && section == CFGSection(nodes, texts, index)
    ensures content + section == CFGContent(nodes, texts, index + 1)
  {
  }

  /** A prefix of `a` is a prefix of `a + b`. */
  lemma PrefixOfAppend(a: string, b: string, s: string)
    requires |s| <= |a| && a[..|s|] == s
    ensures |s| <= |a + b| && (a + b)[..|s|] == s
  {
    assert (a + b)[..|s|] == a[..|s|];
  }

  /** Every section opens with its node's `BLOCK` heading and closes with the banner line and a blank line. */
  lemma SectionFraming(nodes: seq<CFNode>, texts: seq<string>, index: nat)
    requires |texts| == |nodes| && index < |nodes|
    ensures var s := CFGSection(nodes, texts, index);
      |SectionHead(index)| + |SectionTail| <= |s|
      && s[..|SectionHead(index)|] == SectionHead(index) && s[|s| - |SectionTail|..] == SectionTail
  {
    var head := SectionHead(index);
    var body := SectionBody(texts[index], ChildBlockText(texts, nodes[index].left), ChildBlockText(texts, nodes[index].right));
    var s := CFGSection(nodes, texts, index);
    assert s == (head + body) + SectionTail;
    PrefixOfAppend(head, body, head);
    PrefixOfAppend(head + body, SectionTail, head);
    assert s[|s| - |SectionTail|..] == SectionTail;
  }

  /**
   * The printout grows node by node: the text for the first `m` nodes,
   * followed by node `m`'s section, is the start of the text for the
   * first `n`.
   */
  lemma {:induction false} CFGContentPrefix(nodes: seq<CFNode>, texts: seq<string>, m: nat, n: nat)
    requires |texts| == |nodes| && m < n <= |nodes|
    ensures var s := CFGContent(nodes, texts, m) + CFGSection(nodes, texts, m);
      |s| <= |CFGContent(nodes, texts, n)| && CFGContent(nodes, texts, n)[..|s|] == s
    decreases n - m
  {
    ConcatPrefix(Sections(nodes, texts), m, n);
  }

  /** `getCFGContent`: one section per node of the list, in list order. */
  method GetCFGContent(nodes: seq<CFNode>) returns (cfgContent: string)
    requires ClosedArena(nodes)
    ensures cfgContent == CFGContent(nodes, BlockTexts(nodes), |nodes|)
  {
    ghost var texts := BlockTexts(nodes);
    cfgContent := "";
    var index := 0;
    while index < |nodes|
      invariant 0 <= index <= |nodes|
      invariant cfgContent == CFGContent(nodes, texts, index)
      invariant BlockTexts(nodes) == texts
    {
      var section := NodeSection(nodes, texts, index);
      ContentStep(nodes, texts, index, cfgContent, section);
      cfgContent := cfgContent + section;
      index := index + 1;
    }
  }

  /** Lines 251-258 of `getCFGContent`: the section of node `index`, with `null` for a missing child. */
  method NodeSection(nodes: seq<CFNode>, ghost texts: seq<string>, index: nat) returns (section: string)
    requires ClosedArena(nodes) && index < |nodes| && texts == BlockTexts(nodes)
    ensures section == CFGSection(nodes, texts, index)
  {
    var node := nodes[index];
    assert ChildrenBelow(node, |nodes|);
    var text := node.block.ToString();
    var left := "null";
    if node.left.Some? {
      left := nodes[node.left.value].block.ToString();
    }
    var right := "null";
    if node.right.Some? {
      right := nodes[node.right.value].block.ToString();
    }
    section := Section(index, text, left, right);
  }

  class Parser {
    var basicBlockMapping: Mapping
    var jumpEntryIndices: seq<int>
    var jumpTable: map<int, int>

    constructor()
      ensures basicBlockMapping == Empty() && jumpEntryIndices == [] && jumpTable == map[]
    {
      basicBlockMapping := Empty();
      jumpEntryIndices := [];
      jumpTable := map[];
    }

    /** The three tables together. */
    function Tables(): Marking
      reads this
    {
      Marking(basicBlockMapping, jumpEntryIndices, jumpTable)
    }

    /** `isEntryMarked`. */
    predicate IsEntryMarked(byteIndex: int)
      reads this
    {
      EntryMarked(Get(basicBlockMapping, byteIndex))
    }

    /** `isExitMarked`. */
    predicate IsExitMarked(byteIndex: int)
      reads this
    {
      ExitMarked(Get(basicBlockMapping, byteIndex))
    }

    /** `markBlockEntry`: an exit becomes a bounce, a bounce stays, anything else becomes an entry. */
    method MarkBlockEntry(byteIndex: int)
      modifies this
      ensures basicBlockMapping == MarkEntryIn(old(basicBlockMapping), byteIndex)
      ensures jumpEntryIndices == old(jumpEntryIndices) && jumpTable == old(jumpTable)
    {
      var mark := Get(basicBlockMapping, byteIndex);
      if mark == Some(Exit) {
        basicBlockMapping := Put(basicBlockMapping, byteIndex, Bounce);
      } else if mark != Some(Bounce) {
        basicBlockMapping := Put(basicBlockMapping, byteIndex, Entry);
      } else {
        assert basicBlockMapping.entries[byteIndex := Bounce] == basicBlockMapping.entries;
      }
    }

    /** `markBlockExit`: the mirror image of `MarkBlockEntry`. */
    method MarkBlockExit(byteIndex: int)
      modifies this
      ensures basicBlockMapping == MarkExitIn(old(basicBlockMapping), byteIndex)
      ensures jumpEntryIndices == old(jumpEntryIndices) && jumpTable == old(jumpTable)
    {
      var mark := Get(basicBlockMapping, byteIndex);
      if mark == Some(Entry) {
        basicBlockMapping := Put(basicBlockMapping, byteIndex, Bounce);
      } else if mark != Some(Bounce) {
        basicBlockMapping := Put(basicBlockMapping, byteIndex, Exit);
      } else {
        assert basicBlockMapping.entries[byteIndex := Bounce] == basicBlockMapping.entries;
      }
    }

    /** The body of the first marking loop, for the statement `instr` under `byteIndex`. */
    method ScanStatement(size: int, byteIndex: int, instr: string) returns (error: Option<Exception>)
      modifies this
      ensures match MarkStep(JumpTarget, size, (byteIndex, instr), old(Tables()))
        case Ok(t) => error == None && Tables() == t
        case Err(e) => error == Some(e)
    {
      basicBlockMapping := Put(basicBlockMapping, byteIndex, NoJump);
      if byteIndex == 0 {
        MarkBlockEntry(byteIndex);
      }
      if HasJump(instr) {
        var jumpDest := GetJumpDest(instr);
        if jumpDest.Err? {
          return Some(jumpDest.error);
        }
        jumpEntryIndices := jumpEntryIndices + [jumpDest.value];
        MarkBlockExit(byteIndex);
        jumpTable := jumpTable[byteIndex := jumpDest.value];
      }
      if byteIndex == size - 1 {
        MarkBlockExit(byteIndex);
      }
      return None;
    }

    /** Lines 130-142 of `run`: the first marking loop over the statements of `code`. */
    method ScanStatements(code: Code) returns (error: Option<Exception>)
      modifies this
      ensures match Scan(code, old(Tables()))
        case Ok(s) => error == None && Tables() == s
        case Err(e) => error == Some(e)
    {
      var entries := Entries(code);
      var size := |code.order|;
      ghost var start := Tables();
      var i := 0;
      assert entries[i..] == entries;
      while i < |entries|
        invariant 0 <= i <= |entries|
        invariant Run(Marker(JumpTarget, size), entries[i..], Tables()) == Scan(code, start)
      {
        var (byteIndex, instr) := entries[i];
        RunAt(Marker(JumpTarget, size), entries, i, Tables());
        error := ScanStatement(size, byteIndex, instr);
        if error.Some? {
          return;
        }
        i := i + 1;
      }
      assert entries[i..] == [];
      return None;
    }

    /** Lines 144-146 of `run`: every jump target is marked as an entry. */
    method MarkJumpTargets()
      modifies this
      ensures basicBlockMapping == MarkEntries(old(basicBlockMapping), old(jumpEntryIndices))
      ensures jumpEntryIndices == old(jumpEntryIndices) && jumpTable == old(jumpTable)
    {
      var dests := jumpEntryIndices;
      ghost var start := basicBlockMapping;
      var i := 0;
      while i < |dests|
        invariant 0 <= i <= |dests|
        invariant basicBlockMapping == MarkEntries(start, dests[..i])
        invariant jumpEntryIndices == dests && jumpTable == old(jumpTable)
      {
        assert dests[..i + 1][..i] == dests[..i];
        MarkBlockEntry(dests[i]);
        i := i + 1;
      }
      assert dests[..i] == dests;
    }

    /** Lines 149-151 of `run`: a statement before an entry is marked as an exit. */
    method MarkExitsBeforeEntries()
      modifies this
      ensures basicBlockMapping == MarkExitsBefore(old(basicBlockMapping), old(basicBlockMapping).order)
      ensures jumpEntryIndices == old(jumpEntryIndices) && jumpTable == old(jumpTable)
    {
      var keys := basicBlockMapping.order;
      ghost var start := basicBlockMapping;
      var i := 0;
      while i < |keys|
        invariant 0 <= i <= |keys|
        invariant forall k :: k in keys[..i] ==> k in start.entries
        invariant basicBlockMapping == MarkExitsBefore(start, keys[..i])
        invariant jumpEntryIndices == old(jumpEntryIndices) && jumpTable == old(jumpTable)
      {
        var prefix := keys[..i + 1];
        assert prefix[..i] == keys[..i] && prefix[i] == keys[i];
        assert forall k :: k in prefix ==> k in keys;
        assert MarkExitsBefore(start, prefix) == ExitBefore(basicBlockMapping, keys[i]);
        if IsEntryMarked(keys[i] + 1) {
          MarkBlockExit(keys[i]);
        }
        i := i + 1;
      }
      assert keys[..i] == keys;
    }

    /**
     * Lines 154-158 of `run`: the statement after an exit is marked as an
     * entry. A statement added to the mapping makes the key iteration throw
     * on its next step.
     */
    method MarkEntriesAfterExits() returns (error: Option<Exception>)
      modifies this
      ensures match MarkEntriesAfter(old(basicBlockMapping), old(basicBlockMapping).order)
        case Ok(m) => error == None && basicBlockMapping == m
        case Err(e) => error == Some(e)
      ensures jumpEntryIndices == old(jumpEntryIndices) && jumpTable == old(jumpTable)
    {
      var keys := basicBlockMapping.order;
      var size := |keys|;
      ghost var start := basicBlockMapping;
      var i := 0;
      assert keys[..0] == [];
      while i < |keys|
        invariant 0 <= i <= |keys|
        invariant MarkEntriesAfter(start, keys[..i]) == Ok(basicBlockMapping)
        invariant jumpEntryIndices == old(jumpEntryIndices) && jumpTable == old(jumpTable)
      {
        EntriesAfterUnfold(start, keys, i);
        if |basicBlockMapping.order| != size {
          EntriesAfterStops(start, keys, i + 1);
          return Some(ConcurrentModification);
        }
        var index := keys[i];
        if IsExitMarked(index) && index != |basicBlockMapping.order| - 1 {
          MarkBlockEntry(index + 1);
        }
        i := i + 1;
      }
      assert keys[..i] == keys;
      return None;
    }

    /** Lines 161-166 of `run`: the entry-marked statements, in key order, are the block starts. */
    method BlockStarts() returns (starts: seq<int>)
      ensures starts == EntryKeys(basicBlockMapping, basicBlockMapping.order)
    {
      var keys := basicBlockMapping.order;
      starts := [];
      var i := 0;
      while i < |keys|
        invariant 0 <= i <= |keys|
        invariant starts == EntryKeys(basicBlockMapping, keys[..i])
      {
        assert keys[..i + 1][..i] == keys[..i];
        if IsEntryMarked(keys[i]) {
          starts := starts + [keys[i]];
        }
        i := i + 1;
      }
      assert keys[..i] == keys;
    }
    /**
     * Lines 160-166 of `run` over fresh tables: the four marking loops and
     * the collection of block starts, which are the entry-marked statements
     * in key order.
     */
    method FindBlockStarts(code: Code) returns (r: Result<seq<int>>)
      requires Tables() == Blank
      modifies this
      ensures match MarkBoundaries(code)
        case Ok(t) => r == Ok(EntryKeys(t.mapping, t.mapping.order)) && Tables() == t
        case Err(e) => r == Err(e)
    {
      var error := ScanStatements(code);
      if error.Some? {
        return Err(error.value);
      }
      MarkJumpTargets();
      MarkExitsBeforeEntries();
      error := MarkEntriesAfterExits();
      if error.Some? {
        return Err(error.value);
      }
      var starts := BlockStarts();
      return Ok(starts);
    }

    /**
     * Lines 168-178 of `run`: one fresh node per block start, holding the
     * statements from that start up to the next start (for the last block,
     * up to the last statement) and the jump target of the statement before
     * the block's end; no edges yet.
     */
    method Partition(code: Code, blockStarts: seq<int>) returns (nodes: seq<CFNode>)
      ensures |nodes| == |blockStarts|
      ensures forall i :: 0 <= i < |nodes| ==> fresh(nodes[i].block)
      ensures forall i, j :: 0 <= i < j < |nodes| ==> nodes[i].block != nodes[j].block
      ensures Partitioned(nodes, code, blockStarts, jumpTable)
    {
      nodes := [];
      ghost var cut := Cut(code, blockStarts);
      ghost var blocks: seq<BasicBlock> := [];
      var index := 0;
      while index < |blockStarts|
        invariant 0 <= index <= |blockStarts| && |nodes| == index
        invariant forall i :: 0 <= i < index ==> fresh(nodes[i].block)
        invariant |blocks| == index && Distinct(blocks)
        invariant forall i :: 0 <= i < index ==> nodes[i].block == blocks[i]
        invariant forall i :: 0 <= i < index ==>
          nodes[i].block.code == cut[i]
          && nodes[i].block.jumpTo == JumpAt(jumpTable, BlockEnd(blockStarts, i, |code.order|))
          && nodes[i].left.None? && nodes[i].right.None? && !nodes[i].block.isHeader
      {
        var blockEnd := if index == |blockStarts| - 1 then |code.order| - 1 else blockStarts[index + 1];
        assert blockEnd == BlockEnd(blockStarts, index, |code.order|);
        var basicBlockCode := CollectBlock(code, blockStarts[index], blockEnd);
        assert basicBlockCode == cut[index];
        var jumpTo := JumpAt(jumpTable, blockEnd);
        var block := new BasicBlock(basicBlockCode, jumpTo);
        DistinctSnoc(blocks, block);
        blocks := blocks + [block];
        nodes := nodes + [CFNode(block, None, None)];
        index := index + 1;
      }
      forall i, j | 0 <= i < j < |nodes|
        ensures nodes[i].block != nodes[j].block
      {
        DistinctAt(blocks, i, j);
      }
    }

    /**
     * Lines 168-204 of `run`: the blocks cut at `starts` and linked, node 0
     * being the root; without blocks there is no node 0.
     */
    method Assemble(code: Code, starts: seq<int>) returns (r: Result<ControlFlowGraph>)
      ensures starts == [] ==> r == Err(IndexOutOfBounds)
      ensures starts != [] ==> r.Ok? && fresh(r.value) && r.value.Valid() && Built(r.value.nodes, code, starts, jumpTable)
    {
      var nodes := Partition(code, starts);
      var linked := ConnectNodes(nodes);
      if linked == [] {
        return Err(IndexOutOfBounds);
      }
      LinkPartitioned(nodes, linked, code, starts, jumpTable);
      BuiltClosed(linked, code, starts, jumpTable);
      var graph := new ControlFlowGraph(linked);
      return Ok(graph);
    }

    /**
     * Lines 130-204 of `run` over fresh tables: the block boundaries are
     * marked, the blocks cut and linked, and node 0 is the root; without
     * blocks there is no node 0.
     */
    method BuildGraph(code: Code) returns (r: Result<ControlFlowGraph>)
      requires Tables() == Blank
      modifies this
      ensures match MarkBoundaries(code)
        case Err(e) => r == Err(e)
        case Ok(t) =>
          var starts := EntryKeys(t.mapping, t.mapping.order);
          (starts == [] ==> r == Err(IndexOutOfBounds))
          && (starts != [] ==>
                r.Ok? && fresh(r.value) && r.value.Valid() && Built(r.value.nodes, code, starts, t.table))
    {
      var blockStarts := FindBlockStarts(code);
      if blockStarts.Err? {
        return Err(blockStarts.error);
      }
      r := Assemble(code, blockStarts.value);
    }

    /**
     * `run` on a class named `className` whose methods' bytecode is
     * `methods` and whose constant pool is `pool`, with at most `fuel`
     * propagation rounds. Recording the class in the context comes first and
     * fails, before any bytecode is read, when the class's simple name is
     * too short to name its target file. Otherwise the result is the graph
     * of the first method, whose root is node 0. When no shadow key of
     * a `SWAP` is left before renumbering and the method is at most `MaxInt`
     * bytes long, its blocks are cut at starts fit for the code, so that
     * `BuiltBlocksPartition` and `BuiltJumpsLand` describe the graph.
     */
    method RunFirstMethod(className: string, methods: seq<seq<Byte>>, pool: Pool, fuel: nat) returns (r: Result<ControlFlowGraph>)
      requires Tables() == Blank
      modifies this
      ensures Context.TargetFileName(className).Err? ==> r == Err(IndexOutOfBounds)
      ensures Context.TargetFileName(className).Ok? ==>
        match Prepare(methods, pool, fuel)
        case Err(e) => r == Err(e)
        case Ok(code) =>
          match MarkBoundaries(code)
          case Err(e) => r == Err(e)
          case Ok(t) =>
            var starts := EntryKeys(t.mapping, t.mapping.order);
            (starts == [] ==> r == Err(IndexOutOfBounds))
            && (starts != [] ==>
                  r.Ok? && fresh(r.value) && r.value.Valid() && Built(r.value.nodes, code, starts, t.table))
            && (NoShadowKeys(Unnumbered(methods, pool, fuel).value) && |methods[0]| <= MaxInt ==>
                  CutReady(code, starts, t.table))
    {
      var target := Context.TargetFileName(className);
      if target.Err? {
        return Err(target.error);
      }
      var code := PrepareCode(methods, pool, fuel);
      if code.Err? {
        return Err(code.error);
      }
      r := BuildGraph(code.value);
      ghost var marking := MarkBoundaries(code.value);
      if marking.Ok? && NoShadowKeys(Unnumbered(methods, pool, fuel).value) && |methods[0]| <= MaxInt {
        PreparedCutReady(methods, pool, fuel, marking.value, EntryKeys(marking.value.mapping, marking.value.mapping.order));
      }
    }
  }
}
