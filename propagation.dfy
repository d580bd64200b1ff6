/**
 * Textual copy propagation: each assignment `left = right` records `right`
 * as the text of `left` when `left` names a slot, and the names recorded so
 * far are replaced in `right` by their texts, latest name first. Rounds
 * repeat while some right-hand side still mentions a slot.
 */
module Propagation {
  import opened Wrappers
  import opened Rounds
  import opened Text
  import opened LinkedMaps
  import opened Blocks
  import opened Intermediate

  /** `stackVars`: the text each assigned name stands for, in the order the names were first assigned. */
  type Vars = LinkedMap<string, string>

  /** Every recorded name is non-empty (each holds an `s`), so replacing it is well defined. */
  predicate NamesNonEmpty(entries: seq<(string, string)>) {
    forall i :: 0 <= i < |entries| ==> entries[i].0 != []
  }

  /** `text` with each recorded name replaced by its text, the last entry first. */
  function Substitute(text: string, entries: seq<(string, string)>): string
    requires NamesNonEmpty(entries)
    decreases |entries|
  {
    if entries == [] then text
    else
      var last := entries[|entries| - 1];
      Substitute(Replace(text, last.0, last.1), entries[..|entries| - 1])
  }

  /** A text that mentions none of the names comes out of the substitution unchanged. */
  lemma {:induction false} SubstituteNoNames(text: string, entries: seq<(string, string)>)
    requires NamesNonEmpty(entries)
    requires forall i :: 0 <= i < |entries| ==> !Contains(text, entries[i].0)
    ensures Substitute(text, entries) == text
    decreases |entries|
  {
    if entries != [] {
      SubstituteNoNames(text, entries[..|entries| - 1]);
    }
  }

  /** The loop over `stackVars.entries.reversed()` that replaces every name in `text`. */
  method ReplaceAll(text: string, vars: Vars) returns (r: string)
    requires NamesNonEmpty(Entries(vars))
    ensures r == Substitute(text, Entries(vars))
  {
    var entries := Entries(vars);
    r := text;
    var i := |entries|;
    assert entries[..i] == entries;
    while i > 0
      invariant 0 <= i <= |entries|
      invariant Substitute(r, entries[..i]) == Substitute(text, entries)
    {
      assert entries[..i][..i - 1] == entries[..i - 1];
      r := Replace(r, entries[i - 1].0, entries[i - 1].1);
      i := i - 1;
    }
  }

  /** A statement the propagation looks at: it has `=` and no `goto`. */
  predicate Candidate(instr: string) {
    Contains(instr, "=") && !Contains(instr, "goto")
  }

  /** The statement assigns a text that mentions a slot, `s` followed by a digit. */
  predicate MentionsSlot(instr: string) {
    Candidate(instr) && |Split(instr, " = ")| >= 2 && ContainsStackVarName(Split(instr, " = ")[1])
  }

  /**
   * `isReducible`: looks through the statements in order for a candidate
   * whose right side mentions a slot; a candidate without `" = "` throws.
   */
  function Reducible(values: seq<string>): (r: Result<bool>)
    ensures r.Err? ==> r.error == IndexOutOfBounds
  {
    if values == [] then Ok(false)
    else
      var instr := values[0];
      if !Candidate(instr) then Reducible(values[1..])
      else
        var pieces := Split(instr, " = ");
        if |pieces| < 2 then Err(IndexOutOfBounds)
        else if ContainsStackVarName(pieces[1]) then Ok(true)
        else Reducible(values[1..])
  }

  /** When `isReducible` answers, it answers whether some statement assigns a text mentioning a slot. */
  lemma {:induction false} ReducibleIff(values: seq<string>)
    requires Reducible(values).Ok?
    ensures Reducible(values).value <==> exists i :: 0 <= i < |values| && MentionsSlot(values[i])
  {
    if values != [] {
      var instr := values[0];
      if !Candidate(instr) || !ContainsStackVarName(Split(instr, " = ")[1]) {
        ReducibleIff(values[1..]);
        assert !MentionsSlot(values[0]);
        if exists i :: 0 <= i < |values| && MentionsSlot(values[i]) {
          var i :| 0 <= i < |values| && MentionsSlot(values[i]);
          assert values[1..][i - 1] == values[i];
        }
        if exists i :: 0 <= i < |values[1..]| && MentionsSlot(values[1..][i]) {
          var i :| 0 <= i < |values[1..]| && MentionsSlot(values[1..][i]);
          assert values[i + 1] == values[1..][i];
        }
      } else {
        assert MentionsSlot(values[0]);
      }
    }
  }

  /** The statements and the recorded names between two statements of a round. */
  datatype PropState = PropState(code: Code, vars: Vars)

  /** The state is fit for substitution: every recorded name is non-empty. */
  predicate Fit(s: PropState) {
    NamesNonEmpty(Entries(s.vars))
  }

  /** `stackVars[name] = text` for a name holding an `s`; every recorded name stays non-empty. */
  function RecordName(vars: Vars, name: string, text: string): (r: Vars)
    requires NamesNonEmpty(Entries(vars)) && Contains(name, "s")
    ensures NamesNonEmpty(Entries(r))
    ensures Get(r, name) == Some(text)
    ensures forall n :: n != name ==> Get(r, n) == Get(vars, n)
  {
    var r := Put(vars, name, text);
    assert name != [] by { ContainsCharOf(name, "s", 0); }
    assert forall i :: 0 <= i < |r.order| ==> r.order[i] != [] by {
      forall i | 0 <= i < |r.order|
        ensures r.order[i] != []
      {
        if i < |vars.order| {
          assert r.order[i] == vars.order[i] == Entries(vars)[i].0;
        }
      }
    }
    r
  }

  /**
   * One statement of a round, on its text: a candidate `left = right`
   * records `right` for `left` when `left` holds an `s`, and becomes `left =
   * right'` where `right'` has every recorded name replaced. `None` means the
   * statement is not a candidate and is left alone; a candidate without
   * `" = "` throws.
   */
  function StepText(instr: string, vars: Vars): (r: Result<(Option<string>, Vars)>)
    requires NamesNonEmpty(Entries(vars))
    ensures r.Ok? ==> NamesNonEmpty(Entries(r.value.1))
    ensures r.Ok? ==> (r.value.0.None? <==> !Candidate(instr))
    ensures r.Ok? && !Candidate(instr) ==> r.value.1 == vars
    ensures r.Err? <==> Candidate(instr) && !Contains(instr, " = ")
    ensures r.Err? ==> r.error == IndexOutOfBounds
  {
    if !Candidate(instr) then Ok((None, vars))
    else
      var assign := Split(instr, " = ");
      if |assign| < 2 then Err(IndexOutOfBounds)
      else
        var left := assign[0];
        var vars' := if Contains(left, "s") then RecordName(vars, left, assign[1]) else vars;
        Ok((Some(left + " = " + Substitute(assign[1], Entries(vars'))), vars'))
  }

  /** One statement of a round, on the whole state: a rewritten statement is stored back under its key. */
  function Step(s: PropState, key: int, instr: string): (r: Result<PropState>)
    requires Fit(s)
    ensures r.Ok? ==> Fit(r.value)
    ensures r.Ok? && !Candidate(instr) ==> r.value == s
    ensures r.Err? ==> r.error == IndexOutOfBounds
  {
    match StepText(instr, s.vars)
    case Err(e) => Err(e)
    case Ok((None, vars)) => Ok(PropState(s.code, vars))
    case Ok((Some(t), vars)) => Ok(PropState(Put(s.code, key, t), vars))
  }

  /** The body of the round's loop: the rewriting of one statement's text. */
  method RewriteStatement(instr: string, vars: Vars) returns (r: Result<(Option<string>, Vars)>)
    requires NamesNonEmpty(Entries(vars))
    ensures r == StepText(instr, vars)
  {
    if !Contains(instr, "=") || Contains(instr, "goto") {
      return Ok((None, vars));
    }
    var assign := Split(instr, " = ");
    if |assign| < 2 {
      return Err(IndexOutOfBounds);
    }
    var leftSide := assign[0];
    var rightSide := assign[1];
    var newVars := vars;
    if Contains(leftSide, "s") {
      newVars := RecordName(vars, leftSide, rightSide);
    }
    assert StepText(instr, vars).Ok?;
    rightSide := ReplaceAll(rightSide, newVars);
    return Ok((Some(leftSide + " = " + rightSide), newVars));
  }

  /** A round over `entries`, one statement after another, from the state `s`. */
  function RoundOver(entries: seq<(int, string)>, s: PropState): (r: Result<PropState>)
    requires Fit(s)
    ensures r.Ok? ==> Fit(r.value)
    ensures r.Err? ==> r.error == IndexOutOfBounds
    decreases |entries|
  {
    if entries == [] then Ok(s)
    else
      match RoundOver(entries[..|entries| - 1], s)
      case Err(e) => Err(e)
      case Ok(mid) => Step(mid, entries[|entries| - 1].0, entries[|entries| - 1].1)
  }

  /** A state fit for substitution. */
  type FitState = s: PropState | Fit(s) witness PropState(Empty(), Empty())

  /** One pass of the propagation over every statement of `s.code`. */
  function Round(s: FitState): (r: Result<FitState>)
    ensures r.Err? ==> r.error == IndexOutOfBounds
  {
    RoundOver(Entries(s.code), s)
  }

  /** A round rewrites statements in place: keys and their order stay, and non-candidates are untouched. */
  lemma {:induction false} RoundOverKeeps(entries: seq<(int, string)>, s: PropState)
    requires Fit(s) && RoundOver(entries, s).Ok?
    requires forall i :: 0 <= i < |entries| ==> entries[i].0 in s.code.entries && entries[i].1 == s.code.entries[entries[i].0]
    ensures RoundOver(entries, s).value.code.order == s.code.order
    ensures RoundOver(entries, s).value.code.entries.Keys == s.code.entries.Keys
    ensures forall k :: k in s.code.entries && !Candidate(s.code.entries[k]) ==>
      RoundOver(entries, s).value.code.entries[k] == s.code.entries[k]
    decreases |entries|
  {
    if entries != [] {
      var init := entries[..|entries| - 1];
      RoundOverKeeps(init, s);
    }
  }

  /** A round rewrites statements in place: keys and their order stay, and non-candidates are untouched. */
  lemma RoundKeeps(s: PropState)
    requires Fit(s) && Round(s).Ok?
    ensures Round(s).value.code.order == s.code.order
    ensures Round(s).value.code.entries.Keys == s.code.entries.Keys
    ensures forall k :: k in s.code.entries && !Candidate(s.code.entries[k]) ==>
      Round(s).value.code.entries[k] == s.code.entries[k]
  {
    var entries := Entries(s.code);
    forall i | 0 <= i < |entries|
      ensures entries[i].0 in s.code.entries && entries[i].1 == s.code.entries[entries[i].0]
    {
      assert Get(s.code, entries[i].0) == Some(entries[i].1);
    }
    RoundOverKeeps(entries, s);
  }

  /** A round over one more statement is one more step. */
  lemma RoundOverSnoc(entries: seq<(int, string)>, s: PropState, i: nat)
    requires Fit(s) && i < |entries| && RoundOver(entries[..i], s).Ok?
    ensures RoundOver(entries[..i + 1], s) == Step(RoundOver(entries[..i], s).value, entries[i].0, entries[i].1)
  {
    assert entries[..i + 1][..i] == entries[..i];
  }

  /** Once a prefix of the round throws, the whole round throws the same. */
  lemma {:induction false} RoundOverStops(entries: seq<(int, string)>, s: PropState, i: nat)
    requires Fit(s) && i <= |entries| && RoundOver(entries[..i], s).Err?
    ensures RoundOver(entries, s) == RoundOver(entries[..i], s)
    decreases |entries| - i
  {
    if i < |entries| {
      assert entries[..|entries| - 1][..i] == entries[..i];
      RoundOverStops(entries[..|entries| - 1], s, i);
    } else {
      assert entries[..i] == entries;
    }
  }

  /** `isReducible` on the statements of `s`. */
  function Pending(s: FitState): (r: Result<bool>)
    ensures r.Err? ==> r.error == IndexOutOfBounds
  {
    Reducible(Values(s.code))
  }

  /**
   * The `while (isReducible)` loop: rounds repeat until no statement's right
   * side mentions a slot. The source can loop forever (a slot whose recorded
   * text mentions the slot itself); the model stops after `fuel` rounds.
   */
  function Propagate(s: FitState, fuel: nat): Result<FitState> {
    Iterate(Pending, Round, s, fuel)
  }

  /**
   * When the propagation returns, no statement's right side mentions a slot
   * any more; when it throws, a candidate lacked `" = "` or the budget ran out.
   */
  lemma PropagateSettles(s: FitState, fuel: nat)
    ensures Propagate(s, fuel).Ok? ==> Reducible(Values(Propagate(s, fuel).value.code)) == Ok(false)
    ensures Propagate(s, fuel).Err? ==> Propagate(s, fuel).error in {IndexOutOfBounds, Diverged}
  {
    IterateSettles(Pending, Round, s, fuel, IndexOutOfBounds);
  }

  /** The propagation rewrites statements in place: it keeps the keys and their order. */
  lemma {:induction false} PropagateKeeps(s: FitState, fuel: nat)
    requires Propagate(s, fuel).Ok?
    ensures Propagate(s, fuel).value.code.order == s.code.order
    ensures Propagate(s, fuel).value.code.entries.Keys == s.code.entries.Keys
    decreases fuel
  {
    if Pending(s) == Ok(true) {
      RoundKeeps(s);
      PropagateKeeps(Round(s).value, fuel - 1);
    }
  }

  /** Once the propagation settles within a budget, a larger budget settles on the same result. */
  lemma PropagateFuel(s: FitState, fuel: nat, more: nat)
    requires fuel <= more && Propagate(s, fuel).Ok?
    ensures Propagate(s, more) == Propagate(s, fuel)
  {
    IterateFuel(Pending, Round, s, fuel, more);
  }

  /** The statements the second pass rewrites: a jump, or a call without `=` (a void call). */
  predicate Resolvable(instr: string) {
    Contains(instr, "goto") || (!Contains(instr, "=") && Contains(instr, "."))
  }

  /**
   * The statement the second pass (conditions and void calls) leaves: a
   * statement with `goto`, or one without `=` but with `.`, has every
   * recorded name replaced; any other statement stays.
   */
  function Resolve(instr: string, entries: seq<(string, string)>): (r: string)
    requires NamesNonEmpty(entries)
    ensures !Resolvable(instr) ==> r == instr
    ensures Candidate(instr) ==> r == instr
  {
    if Resolvable(instr) then Substitute(instr, entries) else instr
  }

  /** Substituting with `front + back` substitutes the names of `back` first, then those of `front`. */
  lemma {:induction false} SubstituteAppend(text: string, front: seq<(string, string)>, back: seq<(string, string)>)
    requires NamesNonEmpty(front + back)
    ensures NamesNonEmpty(front) && NamesNonEmpty(back)
    ensures Substitute(text, front + back) == Substitute(Substitute(text, back), front)
    decreases |back|
  {
    assert forall i :: 0 <= i < |front| ==> front[i] == (front + back)[i];
    assert forall i :: 0 <= i < |back| ==> back[i] == (front + back)[|front| + i];
    if back != [] {
      var last := back[|back| - 1];
      var init := back[..|back| - 1];
      assert (front + back)[..|front + back| - 1] == front + init;
      assert (front + back)[|front + back| - 1] == last;
      SubstituteAppend(Replace(text, last.0, last.1), front, init);
    } else {
      assert front + back == front;
    }
  }

  /**
   * The purpose of the second pass: in a jump or void call that mentions one
   * recorded name once, with no other recorded name in it before or after
   * the replacement, that name is replaced by its recorded text and the rest
   * of the statement is kept.
   */
  lemma ResolveSlot(a: string, b: string, entries: seq<(string, string)>, j: nat)
    requires NamesNonEmpty(entries) && j < |entries|
    requires var name := entries[j].0;
      Resolvable(a + name + b) && !Contains(a + name[..|name| - 1], name) && !Contains(b, name)
    requires forall i :: 0 <= i < |entries| && i != j ==>
      !Contains(a + entries[j].0 + b, entries[i].0) && !Contains(a + entries[j].1 + b, entries[i].0)
    ensures Resolve(a + entries[j].0 + b, entries) == a + entries[j].1 + b
  {
    var (name, value) := entries[j];
    var text := a + name + b;
    var front, back := entries[..j], entries[j + 1..];
    assert entries == front + [entries[j]] + back;
    SubstituteAppend(text, front + [entries[j]], back);
    SubstituteNoNames(text, back) by {
      forall i | 0 <= i < |back| ensures !Contains(text, back[i].0) {
        assert back[i] == entries[j + 1 + i];
      }
    }
    assert (front + [entries[j]])[..j] == front;
    SplitTwo(a, name, b);
    ReplaceIsSplitJoin(text, name, value);
    assert Replace(text, name, value) == a + value + b;
    SubstituteNoNames(a + value + b, front) by {
      forall i | 0 <= i < |front| ensures !Contains(a + value + b, front[i].0) {
        assert front[i] == entries[i];
      }
    }
  }

  /** The second pass over all statements: each keeps its key and place. */
  function ResolveAll(code: Code, vars: Vars): (r: Code)
    requires NamesNonEmpty(Entries(vars))
    ensures r.order == code.order && r.entries.Keys == code.entries.Keys
    ensures forall k :: k in code.entries ==> r.entries[k] == Resolve(code.entries[k], Entries(vars))
  {
    RawLinkedMap(code.order, map k | k in code.entries :: Resolve(code.entries[k], Entries(vars)))
  }

  /**
   * Lines 69-84 of `run`: the rounds of copy propagation on `ic`, returning
   * the recorded names. `fuel` bounds the number of rounds.
   */
  method CopyPropagation(ic: IntermediateCode, fuel: nat) returns (r: Result<Vars>)
    modifies ic
    ensures match Propagate(PropState(old(ic.code), Empty()), fuel)
      case Ok(s) => r == Ok(s.vars) && ic.code == s.code && ic.stackVarIndex == old(ic.stackVarIndex)
      case Err(e) => r == Err(e)
  {
    var vars: Vars := Empty();
    var budget := fuel;
    while true
      invariant Fit(PropState(ic.code, vars))
      invariant Propagate(PropState(ic.code, vars), budget) == Propagate(PropState(old(ic.code), Empty()), fuel)
      invariant ic.stackVarIndex == old(ic.stackVarIndex)
      decreases budget
    {
      var reducible := Reducible(Values(ic.code));
      if reducible.Err? {
        return Err(reducible.error);
      }
      if !reducible.value {
        return Ok(vars);
      }
      if budget == 0 {
        return Err(Diverged);
      }
      var round := PropagationRound(ic, vars);
      if round.Err? {
        return Err(round.error);
      }
      vars := round.value;
      budget := budget - 1;
    }
  }

  /** One pass of the round's loop body: the statement is rewritten and stored back in `ic`. */
  method RoundStep(ic: IntermediateCode, vars: Vars, byteIndex: int, instr: string) returns (r: Result<Vars>)
    requires Fit(PropState(ic.code, vars))
    modifies ic
    ensures ic.stackVarIndex == old(ic.stackVarIndex)
    ensures match Step(PropState(old(ic.code), vars), byteIndex, instr)
      case Ok(s) => r == Ok(s.vars) && ic.code == s.code
      case Err(e) => r == Err(e)
  {
    var step := RewriteStatement(instr, vars);
    if step.Err? {
      return Err(step.error);
    }
    var (newInstr, newVars) := step.value;
    if newInstr.Some? {
      ic.Set(byteIndex, newInstr.value);
    }
    return Ok(newVars);
  }

  /** One round of the `for` loop over the statements of `ic`. */
  method PropagationRound(ic: IntermediateCode, vars0: Vars) returns (r: Result<Vars>)
    requires Fit(PropState(ic.code, vars0))
    modifies ic
    ensures match Round(PropState(old(ic.code), vars0))
      case Ok(s) => r == Ok(s.vars) && ic.code == s.code && ic.stackVarIndex == old(ic.stackVarIndex)
      case Err(e) => r == Err(e)
  {
    var start := PropState(ic.code, vars0);
    var entries := Entries(ic.code);
    var vars := vars0;
    var i := 0;
    while i < |entries|
      invariant 0 <= i <= |entries|
      invariant RoundOver(entries[..i], start) == Ok(PropState(ic.code, vars))
      invariant ic.stackVarIndex == old(ic.stackVarIndex)
    {
      var (byteIndex, instr) := entries[i];
      RoundOverSnoc(entries, start, i);
      var step := RoundStep(ic, vars, byteIndex, instr);
      if step.Err? {
        RoundOverStops(entries, start, i + 1);
        return step;
      }
      vars := step.value;
      i := i + 1;
    }
    assert entries[..i] == entries;
    return Ok(vars);
  }

  /** The body of the second pass's loop: the statement at `byteIndex` becomes its resolved form. */
  method ResolveStatement(ic: IntermediateCode, byteIndex: int, instr: string, vars: Vars)
    requires NamesNonEmpty(Entries(vars)) && Get(ic.code, byteIndex) == Some(instr)
    modifies ic
    ensures ic.code == Put(old(ic.code), byteIndex, Resolve(instr, Entries(vars)))
    ensures ic.stackVarIndex == old(ic.stackVarIndex)
  {
    if Contains(instr, "goto") {
      var newInstr := ReplaceAll(instr, vars);
      ic.Set(byteIndex, newInstr);
    }
    if !Contains(instr, "=") && Contains(instr, ".") {
      var newInstr := ReplaceAll(instr, vars);
      ic.Set(byteIndex, newInstr);
    }
    assert ic.code == Put(old(ic.code), byteIndex, Resolve(instr, Entries(vars)));
  }

  /** `code` with the statements at its first `i` positions taken from `done`. */
  function Overlay(code: Code, done: map<int, string>, i: nat): (r: Code)
    requires code.entries.Keys <= done.Keys && i <= |code.order|
    ensures r.order == code.order
  {
    RawLinkedMap(code.order, map k | k in code.entries :: if k in code.order[..i] then done[k] else code.entries[k])
  }

  /** Taking one more statement from `done` is putting it. */
  lemma OverlayStep(code: Code, done: map<int, string>, i: nat)
    requires code.entries.Keys <= done.Keys && i < |code.order|
    ensures Put(Overlay(code, done, i), code.order[i], done[code.order[i]]) == Overlay(code, done, i + 1)
  {
    var k0 := code.order[i];
    var before := Overlay(code, done, i);
    var after := Overlay(code, done, i + 1);
    assert k0 in before.entries;
    forall k | k in code.entries
      ensures (k in code.order[..i + 1]) == (k in code.order[..i] || k == k0)
    {
      PrefixSnoc(code.order, i, k);
    }
    assert before.entries[k0 := done[k0]] == after.entries;
  }

  /** The first `i + 1` elements hold `k` exactly when the first `i` do or element `i` is `k`. */
  lemma PrefixSnoc(s: seq<int>, i: nat, k: int)
    requires i < |s|
    ensures (k in s[..i + 1]) == (k in s[..i] || k == s[i])
  {
    assert s[..i + 1] == s[..i] + [s[i]];
  }

  /** The second pass after its first `i` statements: those are resolved, the rest not yet. */
  function ResolvedUpTo(code: Code, vars: Vars, i: nat): (r: Code)
    requires NamesNonEmpty(Entries(vars)) && i <= |code.order|
    ensures r.order == code.order
  {
    Overlay(code, ResolveAll(code, vars).entries, i)
  }

  /** Resolving the next statement extends the resolved prefix by one. */
  lemma ResolvedStep(code: Code, vars: Vars, i: nat)
    requires NamesNonEmpty(Entries(vars)) && i < |code.order|
    ensures Put(ResolvedUpTo(code, vars, i), code.order[i], Resolve(code.entries[code.order[i]], Entries(vars)))
      == ResolvedUpTo(code, vars, i + 1)
  {
    OverlayStep(code, ResolveAll(code, vars).entries, i);
  }

  /** The statement at position `i` is not resolved before the second pass reaches it. */
  lemma ResolvedPending(code: Code, vars: Vars, i: nat)
    requires NamesNonEmpty(Entries(vars)) && i < |code.order|
    ensures Get(ResolvedUpTo(code, vars, i), code.order[i]) == Get(code, code.order[i])
  {
    forall j | 0 <= j < i
      ensures code.order[..i][j] != code.order[i]
    {
      DistinctAt(code.order, j, i);
    }
  }

  /** Nothing resolved is the code itself; everything resolved is the whole second pass. */
  lemma ResolvedEnds(code: Code, vars: Vars)
    requires NamesNonEmpty(Entries(vars))
    ensures ResolvedUpTo(code, vars, 0) == code
    ensures ResolvedUpTo(code, vars, |code.order|) == ResolveAll(code, vars)
  {
    assert code.order[..|code.order|] == code.order;
  }

  /** Lines 87-104 of `run`: conditions and void calls get the recorded names replaced. */
  method ResolveConditions(ic: IntermediateCode, vars: Vars)
    requires NamesNonEmpty(Entries(vars))
    modifies ic
    ensures ic.code == ResolveAll(old(ic.code), vars) && ic.stackVarIndex == old(ic.stackVarIndex)
  {
    var original := ic.code;
    var entries := Entries(ic.code);
    ResolvedEnds(original, vars);
    var i := 0;
    while i < |entries|
      invariant 0 <= i <= |entries|
      invariant ic.code == ResolvedUpTo(original, vars, i)
      invariant ic.stackVarIndex == old(ic.stackVarIndex)
    {
      var (byteIndex, instr) := entries[i];
      ResolvedPending(original, vars, i);
      ResolveStatement(ic, byteIndex, instr, vars);
      ResolvedStep(original, vars, i);
      i := i + 1;
    }
  }
}
