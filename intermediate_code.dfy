/**
 * The translation of one method's bytecode into intermediate code: each
 * instruction becomes a statement over stack slots `s0, s1, ...` and local
 * variables `v0, v1, ...`, stored under the instruction's byte index.
 *
 * The slot counter only grows: a push names a fresh slot, and an operand is
 * read from the slots just below the counter.
 *
 * The constant pool is given as a map from pool index to the text BCEL's
 * `constantToString` prints for that entry; an index with no entry is an
 * invalid constant.
 */
module Emulation {
  import opened Wrappers
  import opened Text
  import opened LinkedMaps
  import opened Opcodes
  import opened Blocks

  /** What one instruction adds: statements under their keys, and how many slots it pushed. */
  datatype Emission = Emission(writes: seq<(int, string)>, pushed: nat)

  /** The constant pool: display text by pool index. */
  type Pool = map<int, string>

  /** `s{slot} = rhs`: a value assigned to a stack slot. */
  function Assign(slot: int, rhs: string): string {
    StackVar(slot) + " = " + rhs
  }

  /** The operand bytes `applyOpcode` reads for `opcode` (it reads none for the opcodes it ignores). */
  function OperandsRead(opcode: int): (count: nat)
    ensures count <= 2
  {
    if opcode == BIPUSH || opcode == LDC || opcode == IF_ICMPGE || opcode == IFLE || opcode == GOTO then 1
    else if opcode == INVOKESTATIC || opcode == GETSTATIC || opcode == INVOKEVIRTUAL || opcode == IINC then 2
    else 0
  }

  /** The opcodes whose translation looks an entry up in the constant pool. */
  predicate ReadsPool(opcode: int) {
    opcode == LDC || opcode == INVOKESTATIC || opcode == GETSTATIC || opcode == INVOKEVIRTUAL
  }

  /** The pool index such an opcode's operand bytes name: one unsigned byte for `LDC`, two for the others. */
  function PoolIndexOf(opcode: int, params: seq<Byte>): (index: int)
    requires |params| >= OperandsRead(opcode) && ReadsPool(opcode)
    ensures 0 <= index < 65536
  {
    if opcode == LDC then Unsigned(params[0]) else PoolIndex(params[0], params[1])
  }

  /** Kotlin's `Math.abs`, on values far from the Int range's ends. */
  function Abs(x: int): (r: int)
    ensures r >= 0 && (r == x || r == -x)
  {
    if x < 0 then -x else x
  }

  /**
   * `composeBranchOffset`: the byte index a branch goes to. With two operand
   * bytes it is `|hi * 16 + lo + byteIndex|`; with one it is the unsigned
   * byte plus `byteIndex`; with none, reading the first byte throws.
   */
  function ComposeBranchOffset(byteIndex: int, params: seq<Byte>): (r: Result<int>)
    ensures r.Err? <==> params == []
    ensures r.Err? ==> r.error == IndexOutOfBounds
    ensures r.Ok? && |params| == 2 ==>
      r.value >= 0 && (r.value == params[0] * 16 + params[1] + byteIndex || r.value == -(params[0] * 16 + params[1] + byteIndex))
    ensures r.Ok? && |params| != 2 ==> byteIndex <= r.value < byteIndex + 256
  {
    if |params| == 2 then Ok(Abs(params[0] * 16 + params[1] + byteIndex))
    else if |params| == 0 then Err(IndexOutOfBounds)
    else Ok(Unsigned(params[0]) + byteIndex)
  }

  /** The slot names `s{top}, s{top-1}, ...`, `count` of them. */
  function SlotsDown(top: int, count: nat): (names: seq<string>)
    ensures |names| == count && forall i :: 0 <= i < count ==> names[i] == StackVar(top - i)
  {
    seq(count, i requires 0 <= i < count => StackVar(top - i))
  }

  /** A call's argument list: the slot names from `top` downwards, separated by `", "`. */
  function ArgList(top: int, count: nat): string {
    if count == 0 then "" else Join(SlotsDown(top, count), ", ")
  }

  /** The part of `sig` before its first `" ("`: the qualified name of a method reference. */
  function MethodName(sig: string): string {
    Split(sig, " (")[0]
  }

  /** The text between the first `(` and the following `)` of a signature; throws without a `(`. */
  function ArgDescriptor(sig: string): Result<string> {
    var open := Split(sig, "(");
    if |open| < 2 then Err(IndexOutOfBounds) else Ok(Split(open[1], ")")[0])
  }

  /** `INVOKEVIRTUAL` counts its arguments by which of the type names `D` and `Object` occur. */
  function VirtualArgCount(args: string): (count: nat)
    ensures count <= 2
  {
    (if Contains(args, "D") then 1 else 0) + (if Contains(args, "Object") then 1 else 0)
  }

  /** The part of `sig` after its last `.` and before `" ("`. */
  function SimpleName(sig: string): string {
    var temp := Split(MethodName(sig), ".");
    temp[|temp| - 1]
  }

  /** `target.name(args)`: a call on the object in a slot. */
  function CallText(target: string, name: string, args: string): string {
    target + "." + name + "(" + args + ")"
  }

  /** `stmt` written under `byteIndex`, with `pushed` slots pushed. */
  function One(byteIndex: int, stmt: string, pushed: nat): Result<Emission> {
    Ok(Emission([(byteIndex, stmt)], pushed))
  }

  /** The opcodes that move values between slots and variables, with no operand bytes. */
  predicate SlotOpcode(opcode: int) {
    opcode in {ISTORE_0, ISTORE_1, ISTORE_2, ISTORE_3, DSTORE_1, DSTORE_2, DSTORE_3,
               ICONST_1, ICONST_2, ICONST_3, ICONST_4, ICONST_5, ILOAD_0, ILOAD_1, ILOAD_2, ILOAD_3,
               DLOAD_1, DLOAD_2, DLOAD_3, RETURN, DMUL, DCMPL, SWAP, DSUB}
  }

  /** The branch opcodes the decompiler translates. */
  predicate BranchOpcode(opcode: int) {
    opcode in {IF_ICMPGE, IFLE, GOTO}
  }

  /** The opcodes `applyOpcode` translates; every other opcode adds nothing. */
  predicate Translated(opcode: int) {
    SlotOpcode(opcode) || BranchOpcode(opcode) || ReadsPool(opcode) || opcode == BIPUSH || opcode == IINC
  }

  /** The opcodes that store the top slot into a local variable. */
  predicate StoreOpcode(opcode: int) {
    opcode in {ISTORE_0, ISTORE_1, ISTORE_2, ISTORE_3, DSTORE_1, DSTORE_2, DSTORE_3}
  }

  /** The local variable `ISTORE_k`/`DSTORE_k` writes and `ILOAD_k`/`DLOAD_k` reads, by opcode number. */
  function LocalSlot(opcode: int): int {
    if ISTORE_0 <= opcode <= ISTORE_3 then opcode - ISTORE_0
    else if DSTORE_0 <= opcode <= DSTORE_3 then opcode - DSTORE_0
    else if ILOAD_0 <= opcode <= ILOAD_3 then opcode - ILOAD_0
    else opcode - DLOAD_0
  }

  /** The variable a store writes, as `applyOpcode` spells it out. */
  function StoreTarget(opcode: int): string
    requires StoreOpcode(opcode)
  {
    if opcode == ISTORE_0 then "v0"
    else if opcode == ISTORE_1 || opcode == DSTORE_1 then "v1"
    else if opcode == ISTORE_2 || opcode == DSTORE_2 then "v2"
    else "v3"
  }

  /** The value a one-slot push assigns to the new slot, as `applyOpcode` spells it out. */
  function PushedText(opcode: int, n: int): string
    requires SlotOpcode(opcode) && !StoreOpcode(opcode) && opcode != RETURN && opcode != SWAP
  {
    if opcode == ICONST_1 then "1"
    else if opcode == ICONST_2 then "2"
    else if opcode == ICONST_3 then "3"
    else if opcode == ICONST_4 then "4"
    else if opcode == ICONST_5 then "5"
    else if opcode == ILOAD_0 then "v0"
    else if opcode == ILOAD_1 || opcode == DLOAD_1 then "v1"
    else if opcode == ILOAD_2 || opcode == DLOAD_2 then "v2"
    else if opcode == ILOAD_3 || opcode == DLOAD_3 then "v3"
    else if opcode == DMUL then StackVar(n - 2) + " * " + StackVar(n - 1)
    else if opcode == DCMPL then
      var diff := StackVar(n - 2) + " - " + StackVar(n - 1);
      "(" + diff + ")/|" + diff + "|"
    else StackVar(n - 2) + " - " + StackVar(n - 1)
  }

  /** The translation of an opcode that reads no operand bytes. */
  function SlotEmit(byteIndex: int, opcode: int, n: int): (e: Emission)
    requires SlotOpcode(opcode)
    ensures |e.writes| == (if opcode == SWAP then 2 else 1)
    ensures e.pushed == if opcode == SWAP then 2 else if opcode == RETURN || StoreOpcode(opcode) then 0 else 1
    ensures e.writes[0].0 == byteIndex && (opcode == SWAP ==> e.writes[1].0 == -1 - byteIndex)
  {
    if StoreOpcode(opcode) then Emission([(byteIndex, StoreTarget(opcode) + " = " + StackVar(n - 1))], 0)
    else if opcode == RETURN then Emission([(byteIndex, "return")], 0)
    else if opcode == SWAP then
      Emission([(byteIndex, Assign(n, StackVar(n - 1))), (-1 - byteIndex, Assign(n + 1, StackVar(n - 2)))], 2)
    else Emission([(byteIndex, Assign(n, PushedText(opcode, n)))], 1)
  }

  /** The statement of a branch: its condition, if any, and `goto` with the target byte index. */
  function BranchEmit(byteIndex: int, opcode: int, params: seq<Byte>, n: int): (r: Result<Emission>)
    requires BranchOpcode(opcode)
    ensures r.Err? <==> params == []
    ensures r.Err? ==> r.error == IndexOutOfBounds
    ensures r.Ok? ==> |r.value.writes| == 1 && r.value.writes[0].0 == byteIndex && r.value.pushed == 0
  {
    match ComposeBranchOffset(byteIndex, params)
    case Err(e) => Err(e)
    case Ok(offset) =>
      One(byteIndex, BranchCondition(opcode, n) + "goto " + IntToString(offset), 0)
  }

  /** What a branch statement says before `goto`: `if (...) ` for a conditional branch, nothing for `GOTO`. */
  function BranchCondition(opcode: int, n: int): string
    requires BranchOpcode(opcode)
  {
    if opcode == IF_ICMPGE then "if (" + StackVar(n - 2) + " >= " + StackVar(n - 1) + ") "
    else if opcode == IFLE then "if (" + StackVar(n - 1) + " <= 0) "
    else ""
  }

  /** The translation of an opcode that loads a constant-pool entry. */
  function PoolEmit(byteIndex: int, opcode: int, params: seq<Byte>, n: int, pool: Pool): (r: Result<Emission>)
    requires ReadsPool(opcode)
    ensures |params| < OperandsRead(opcode) ==> r == Err(IndexOutOfBounds)
    ensures r == Err(ClassFormat) <==> |params| >= OperandsRead(opcode) && PoolIndexOf(opcode, params) !in pool
    ensures r.Ok? ==> |r.value.writes| == 1 && r.value.writes[0].0 == byteIndex && r.value.pushed <= 1
  {
    if |params| < OperandsRead(opcode) then Err(IndexOutOfBounds)
    else if PoolIndexOf(opcode, params) !in pool then Err(ClassFormat)
    else
      var sig := pool[PoolIndexOf(opcode, params)];
      if opcode == LDC then One(byteIndex, Assign(n, sig), 1)
      else if opcode == GETSTATIC then One(byteIndex, Assign(n, Split(sig, " ")[0]), 1)
      else if opcode == INVOKESTATIC then StaticEmit(byteIndex, sig, n)
      else VirtualEmit(byteIndex, sig, n)
  }

  /** `INVOKESTATIC` of the method `sig`: the call's result, with one argument per `;` in the descriptor, goes to a new slot. */
  function StaticEmit(byteIndex: int, sig: string, n: int): (r: Result<Emission>)
    ensures r.Err? ==> r.error == IndexOutOfBounds
    ensures r.Ok? ==> |r.value.writes| == 1 && r.value.writes[0].0 == byteIndex && r.value.pushed == 1
  {
    match ArgDescriptor(sig)
    case Err(e) => Err(e)
    case Ok(args) =>
      var numOfArgs := |Split(args, ";")|;
      One(byteIndex, Assign(n, MethodName(sig) + "(" + ArgList(n - 1, numOfArgs - 1) + ")"), 1)
  }

  /** `INVOKEVIRTUAL` of the method `sig`: a call on the slot below the arguments; a non-void result goes to a new slot. */
  function VirtualEmit(byteIndex: int, sig: string, n: int): (r: Result<Emission>)
    ensures r.Err? ==> r.error == IndexOutOfBounds
    ensures r.Ok? ==> |r.value.writes| == 1 && r.value.writes[0].0 == byteIndex && r.value.pushed <= 1
  {
    var closed := Split(sig, ")");
    if |closed| < 2 then Err(IndexOutOfBounds)
    else
      match ArgDescriptor(sig)
      case Err(e) => Err(e)
      case Ok(args) =>
        var numOfArgs := VirtualArgCount(args);
        VirtualCall(byteIndex, closed[1], SimpleName(sig), n, numOfArgs, ArgList(n - 1, numOfArgs))
  }

  /** The call `s{n-1-count}.name(params)`, alone for a `V` return type, else assigned to slot `n`. */
  function VirtualCall(byteIndex: int, returnType: string, name: string, n: int, count: nat, params: string): Result<Emission> {
    var call := CallText(StackVar(n - 1 - count), name, params);
    if returnType == "V" then One(byteIndex, call, 0) else One(byteIndex, Assign(n, call), 1)
  }

  /**
   * `applyOpcode`: the statements one instruction adds and how many slots it
   * pushes, given the slot counter `n` before it. Instructions the
   * decompiler does not handle add nothing.
   */
  function Emit(byteIndex: int, opcode: int, params: seq<Byte>, n: int, pool: Pool): (r: Result<Emission>)
    ensures |params| < OperandsRead(opcode) ==> r == Err(IndexOutOfBounds)
    ensures r.Err? ==> |params| < OperandsRead(opcode) || ReadsPool(opcode)
    ensures r == Err(ClassFormat) <==>
      ReadsPool(opcode) && |params| >= OperandsRead(opcode) && PoolIndexOf(opcode, params) !in pool
    ensures !Translated(opcode) ==> r == Ok(Emission([], 0))
    ensures r.Ok? ==> |r.value.writes| <= 2 && r.value.pushed <= 2
    ensures r.Ok? ==> forall i :: 0 <= i < |r.value.writes| ==>
      r.value.writes[i].0 == byteIndex || (opcode == SWAP && i == 1 && r.value.writes[i].0 == -1 - byteIndex)
  {
    if SlotOpcode(opcode) then Ok(SlotEmit(byteIndex, opcode, n))
    else if BranchOpcode(opcode) then BranchEmit(byteIndex, opcode, params, n)
    else if ReadsPool(opcode) then PoolEmit(byteIndex, opcode, params, n, pool)
    else if opcode == BIPUSH then
      if |params| < 1 then Err(IndexOutOfBounds) else One(byteIndex, Assign(n, IntToString(params[0])), 1)
    else if opcode == IINC then
      if |params| < 2 then Err(IndexOutOfBounds)
      else One(byteIndex, LocalVar(params[0]) + " = " + (LocalVar(params[0]) + " + " + IntToString(params[1])), 0)
    else Ok(Emission([], 0))
  }

  /** The code after applying `writes` one after another. */
  function PutAll(code: Code, writes: seq<(int, string)>): Code
    decreases |writes|
  {
    if writes == [] then code else PutAll(Put(code, writes[0].0, writes[0].1), writes[1..])
  }

  /** The statement table and slot counter of a method's emulator. */
  datatype Translation = Translation(code: Code, stackVarIndex: int)

  /**
   * `applyOpcode` on a translation: the statements of one instruction are
   * stored and the slot counter advanced, or the exception is thrown.
   */
  function Apply(pool: Pool, byteIndex: int, opcode: int, params: seq<Byte>, t: Translation): (r: Result<Translation>)
    ensures r.Ok? ==> r.value.stackVarIndex >= t.stackVarIndex
    ensures r.Err? <==> Emit(byteIndex, opcode, params, t.stackVarIndex, pool).Err?
  {
    match Emit(byteIndex, opcode, params, t.stackVarIndex, pool)
    case Err(e) => Err(e)
    case Ok(e) => Ok(Translation(PutAll(t.code, e.writes), t.stackVarIndex + e.pushed))
  }
}

module EmulationProofs {
  import opened Wrappers
  import opened Text
  import opened Opcodes
  import opened Emulation

  /** Only digits and a minus sign occur in the decimal text of an Int. */
  lemma NotInIntText(i: int, c: char)
    requires !IsDigit(c) && c != '-'
    ensures c !in IntToString(i)
  {
    IntToStringChars(i);
  }

  lemma NotInSlotName(slot: int, c: char)
    requires !IsDigit(c) && c != '-' && c != 's'
    ensures c !in StackVar(slot)
  {
    NotInIntText(slot, c);
  }

  /** A text without the separator's first character is a split of one piece. */
  lemma SplitWhole(s: string, sep: string)
    requires sep != [] && sep[0] !in s
    ensures Split(s, sep) == [s]
  {
    if Contains(s, sep) {
      ContainsFirstChar(s, sep);
    }
  }

  /** The target of `s{slot} = rhs` is the slot's name. */
  lemma AssignTarget(slot: int, rhs: string)
    ensures Split(Assign(slot, rhs), " = ")[0] == StackVar(slot)
  {
    NotInSlotName(slot, ' ');
    SplitFirst(StackVar(slot), " = ", rhs);
  }

  /** A statement that starts with neither `s` nor a space does not assign a slot. */
  lemma NoSlotTarget(stmt: string)
    requires stmt != [] && stmt[0] != 's' && stmt[0] != ' '
    ensures !IsStackVarName(Split(stmt, " = ")[0])
  {
    SplitKeepsHead([stmt[0]], " = ", stmt[1..]);
    assert [stmt[0]] + stmt[1..] == stmt;
  }

  /** A void call `s{m}.name(args)` does not assign a slot. */
  lemma CallNoSlotTarget(m: int, name: string, args: string)
    ensures !IsStackVarName(Split(CallText(StackVar(m), name, args), " = ")[0])
  {
    var head := StackVar(m) + ".";
    var rest := name + "(" + args + ")";
    NotInSlotName(m, ' ');
    SplitKeepsHead(head, " = ", rest);
    assert head + rest == CallText(StackVar(m), name, args);
    var piece := Split(head + rest, " = ")[0];
    assert piece[|head| - 1] == '.';
    assert !IsDigit(piece[1..][|head| - 2]);
  }

  /**
   * `e` keeps the stack discipline for slot counter `n`: the first `pushed`
   * statements assign slots `n`, `n + 1`, ... in turn, under names
   * `removeStackVar` recognises, and the other statements assign no slot.
   */
  predicate Disciplined(e: Emission, n: int) {
    e.pushed <= |e.writes|
    && (forall i :: 0 <= i < e.pushed ==>
          Split(e.writes[i].1, " = ")[0] == StackVar(n + i) && IsStackVarName(StackVar(n + i)))
    && (forall i :: e.pushed <= i < |e.writes| ==> !IsStackVarName(Split(e.writes[i].1, " = ")[0]))
  }

  /** Every instruction the translation accepts keeps the stack discipline. */
  lemma EmitStackDiscipline(byteIndex: int, opcode: int, params: seq<Byte>, n: int, pool: Pool)
    requires n >= 0 && Emit(byteIndex, opcode, params, n, pool).Ok?
    ensures Disciplined(Emit(byteIndex, opcode, params, n, pool).value, n)
  {
    var e := Emit(byteIndex, opcode, params, n, pool).value;
    if SlotOpcode(opcode) {
      SlotDiscipline(byteIndex, opcode, n);
    } else if BranchOpcode(opcode) {
      PushesNothing(e, n);
    } else if ReadsPool(opcode) {
      PoolDiscipline(byteIndex, opcode, params, n, pool);
    } else if opcode == BIPUSH {
      PushesOne(e, n, IntToString(params[0]));
    } else if opcode == IINC {
      PushesNothing(e, n);
    }
  }

  /** One statement `s{n} = rhs` that pushes one slot keeps the discipline. */
  lemma PushesOne(e: Emission, n: int, rhs: string)
    requires n >= 0 && e.pushed == 1 && |e.writes| == 1 && e.writes[0].1 == Assign(n, rhs)
    ensures Disciplined(e, n)
  {
    StackVarName(n);
    AssignTarget(n, rhs);
    forall i | 0 <= i < e.pushed
      ensures Split(e.writes[i].1, " = ")[0] == StackVar(n + i) && IsStackVarName(StackVar(n + i))
    {
      assert i == 0 && n + i == n;
    }
  }

  /** One statement that pushes nothing and starts with neither `s` nor a space keeps the discipline. */
  lemma PushesNothing(e: Emission, n: int)
    requires e.pushed == 0 && |e.writes| == 1 && e.writes[0].1 != [] && e.writes[0].1[0] !in "s "
    ensures Disciplined(e, n)
  {
    NoSlotTarget(e.writes[0].1);
    NoTarget(e, n);
  }

  /** One statement that pushes nothing and assigns no slot keeps the discipline. */
  lemma NoTarget(e: Emission, n: int)
    requires e.pushed == 0 && |e.writes| == 1 && !IsStackVarName(Split(e.writes[0].1, " = ")[0])
    ensures Disciplined(e, n)
  {
    forall i | 0 <= i < |e.writes|
      ensures !IsStackVarName(Split(e.writes[i].1, " = ")[0])
    {
      assert i == 0;
    }
  }

  lemma SlotDiscipline(byteIndex: int, opcode: int, n: int)
    requires n >= 0 && SlotOpcode(opcode)
    ensures Disciplined(SlotEmit(byteIndex, opcode, n), n)
  {
    var e := SlotEmit(byteIndex, opcode, n);
    if opcode == SWAP {
      assert e.writes[0].1 == Assign(n, StackVar(n - 1));
      assert e.writes[1].1 == Assign(n + 1, StackVar(n - 2));
      forall i | 0 <= i < e.pushed
        ensures Split(e.writes[i].1, " = ")[0] == StackVar(n + i) && IsStackVarName(StackVar(n + i))
      {
        StackVarName(n + i);
        if i == 0 {
          AssignTarget(n, StackVar(n - 1));
        } else {
          AssignTarget(n + 1, StackVar(n - 2));
        }
      }
    } else if StoreOpcode(opcode) || opcode == RETURN {
      PushesNothing(e, n);
    } else {
      PushesOne(e, n, PushedText(opcode, n));
    }
  }

  lemma PoolDiscipline(byteIndex: int, opcode: int, params: seq<Byte>, n: int, pool: Pool)
    requires n >= 0 && ReadsPool(opcode) && PoolEmit(byteIndex, opcode, params, n, pool).Ok?
    ensures Disciplined(PoolEmit(byteIndex, opcode, params, n, pool).value, n)
  {
    var e := PoolEmit(byteIndex, opcode, params, n, pool).value;
    var sig := pool[PoolIndexOf(opcode, params)];
    if opcode == LDC {
      assert e == Emission([(byteIndex, Assign(n, sig))], 1);
      PushesOne(e, n, sig);
    } else if opcode == GETSTATIC {
      assert e == Emission([(byteIndex, Assign(n, Split(sig, " ")[0]))], 1);
      PushesOne(e, n, Split(sig, " ")[0]);
    } else if opcode == INVOKESTATIC {
      assert e == StaticEmit(byteIndex, sig, n).value;
      StaticDiscipline(byteIndex, sig, n);
    } else {
      assert e == VirtualEmit(byteIndex, sig, n).value;
      VirtualDiscipline(byteIndex, sig, n);
    }
  }

  lemma StaticDiscipline(byteIndex: int, sig: string, n: int)
    requires n >= 0 && StaticEmit(byteIndex, sig, n).Ok?
    ensures Disciplined(StaticEmit(byteIndex, sig, n).value, n)
  {
    var numOfArgs := |Split(ArgDescriptor(sig).value, ";")|;
    var call := MethodName(sig) + "(" + ArgList(n - 1, numOfArgs - 1) + ")";
    var e := StaticEmit(byteIndex, sig, n).value;
    assert e == Emission([(byteIndex, Assign(n, call))], 1);
    PushesOne(e, n, call);
  }

  lemma VirtualDiscipline(byteIndex: int, sig: string, n: int)
    requires n >= 0 && VirtualEmit(byteIndex, sig, n).Ok?
    ensures Disciplined(VirtualEmit(byteIndex, sig, n).value, n)
  {
    var numOfArgs := VirtualArgCount(ArgDescriptor(sig).value);
    var m := n - 1 - numOfArgs;
    var args := ArgList(n - 1, numOfArgs);
    var call := CallText(StackVar(m), SimpleName(sig), args);
    var e := VirtualEmit(byteIndex, sig, n).value;
    if Split(sig, ")")[1] == "V" {
      assert e == Emission([(byteIndex, call)], 0);
      CallNoSlotTarget(m, SimpleName(sig), args);
      NoTarget(e, n);
    } else {
      assert e == Emission([(byteIndex, Assign(n, call))], 1);
      PushesOne(e, n, call);
    }
  }

  /** `head = tail` splits into its two sides when `head` holds no space and `tail` no `=`. */
  lemma SplitAssignment(head: string, tail: string)
    requires ' ' !in head && '=' !in tail
    ensures Split(head + " = " + tail, " = ") == [head, tail]
  {
    SplitFirst(head, " = ", tail);
    if Contains(tail, " = ") {
      ContainsCharOf(tail, " = ", 1);
    }
  }

  /** A statement `head goto tail` splits on `"goto "` into `head` and `tail`. */
  lemma GotoSplit(head: string, tail: string)
    requires 'g' !in head && 'g' !in tail
    ensures Split(head + "goto " + tail, "goto ") == [head, tail]
  {
    SplitFirst(head, "goto ", tail);
    SplitWhole(tail, "goto ");
  }

  /** `"goto"` occurs in `head goto tail`. */
  lemma GotoOccurs(head: string, tail: string)
    ensures Contains(head + "goto " + tail, "goto")
  {
    var s := head + "goto " + tail;
    assert s[|head|..|head| + 4] == "goto";
    assert OccursAt(s, "goto", |head|);
    ContainsOccurrence(s, "goto");
  }

  /** Branch offsets from byte indices below 65536 are 32-bit Ints. */
  lemma BranchOffsetRange(byteIndex: int, params: seq<Byte>)
    requires params != [] && 0 <= byteIndex < 65536
    ensures MinInt <= ComposeBranchOffset(byteIndex, params).value <= MaxInt
  {
  }

  lemma ConditionHasNoG(opcode: int, n: int)
    requires BranchOpcode(opcode)
    ensures 'g' !in BranchCondition(opcode, n)
  {
    NotInSlotName(n - 2, 'g');
    NotInSlotName(n - 1, 'g');
  }

  /** The statement of a branch is its condition, `goto ` and the target. */
  lemma BranchStatement(byteIndex: int, opcode: int, params: seq<Byte>, n: int, pool: Pool)
    requires BranchOpcode(opcode) && params != []
    ensures Emit(byteIndex, opcode, params, n, pool).Ok?
    ensures Emit(byteIndex, opcode, params, n, pool).value.writes[0].1 ==
      BranchCondition(opcode, n) + "goto " + IntToString(ComposeBranchOffset(byteIndex, params).value)
  {
  }

  /**
   * A branch's statement names its target so that the parser reads it back:
   * the text after `"goto "` is the decimal branch offset. Byte indices of a
   * method's code stay below 65536, so the offset is a 32-bit Int.
   */
  lemma EmitJumpTarget(byteIndex: int, opcode: int, params: seq<Byte>, n: int, pool: Pool)
    requires BranchOpcode(opcode) && params != [] && 0 <= byteIndex < 65536
    ensures Emit(byteIndex, opcode, params, n, pool).Ok?
    ensures var stmt := Emit(byteIndex, opcode, params, n, pool).value.writes[0].1;
      Contains(stmt, "goto") && |Split(stmt, "goto ")| == 2
      && ParseInt(Split(stmt, "goto ")[1]) == ComposeBranchOffset(byteIndex, params)
  {
    BranchStatement(byteIndex, opcode, params, n, pool);
    var offset := ComposeBranchOffset(byteIndex, params).value;
    var head := BranchCondition(opcode, n);
    ConditionHasNoG(opcode, n);
    NotInIntText(offset, 'g');
    GotoSplit(head, IntToString(offset));
    GotoOccurs(head, IntToString(offset));
    BranchOffsetRange(byteIndex, params);
    IntToStringRoundTrip(offset);
  }

  /**
   * `ICONST_k` and `BIPUSH b` assign to the new slot a text that parses back
   * to the constant they push: `k` for `ICONST_k`, the signed operand byte
   * for `BIPUSH`.
   */
  lemma EmitPushedConstant(byteIndex: int, opcode: int, params: seq<Byte>, n: int, pool: Pool)
    requires ICONST_1 <= opcode <= ICONST_5 || (opcode == BIPUSH && params != [])
    ensures Emit(byteIndex, opcode, params, n, pool).Ok?
    ensures var pieces := Split(Emit(byteIndex, opcode, params, n, pool).value.writes[0].1, " = ");
      |pieces| == 2 && pieces[0] == StackVar(n)
      && ParseInt(pieces[1]) == Ok(if opcode == BIPUSH then params[0] as int else opcode - ICONST_0)
  {
    var value := if opcode == BIPUSH then params[0] as int else opcode - ICONST_0;
    var text := IntToString(value);
    if opcode != BIPUSH {
      assert PushedText(opcode, n) == text;
    }
    NotInSlotName(n, ' ');
    NotInIntText(value, '=');
    SplitAssignment(StackVar(n), text);
    IntToStringRoundTrip(value);
  }

  /**
   * `xSTORE_k` assigns slot `n - 1` to local variable `v{k}`, and `xLOAD_k`
   * assigns `v{k}` to the new slot `n`, where `k` is the opcode's offset
   * from `ISTORE_0`, `DSTORE_0`, `ILOAD_0` or `DLOAD_0`.
   */
  lemma EmitLocalAccess(byteIndex: int, opcode: int, params: seq<Byte>, n: int, pool: Pool)
    requires StoreOpcode(opcode) || opcode in {ILOAD_0, ILOAD_1, ILOAD_2, ILOAD_3, DLOAD_1, DLOAD_2, DLOAD_3}
    ensures Emit(byteIndex, opcode, params, n, pool).Ok?
    ensures Split(Emit(byteIndex, opcode, params, n, pool).value.writes[0].1, " = ") ==
      if StoreOpcode(opcode) then [LocalVar(LocalSlot(opcode)), StackVar(n - 1)]
      else [StackVar(n), LocalVar(LocalSlot(opcode))]
  {
    var local := LocalVar(LocalSlot(opcode));
    NotInIntText(LocalSlot(opcode), ' ');
    NotInIntText(LocalSlot(opcode), '=');
    if StoreOpcode(opcode) {
      assert StoreTarget(opcode) == local;
      NotInIntText(n - 1, '=');
      SplitAssignment(local, StackVar(n - 1));
    } else {
      assert PushedText(opcode, n) == local;
      NotInSlotName(n, ' ');
      SplitAssignment(StackVar(n), local);
    }
  }

  /** Two slot names around a separator that starts with a space split back into the two names. */
  lemma SplitSlots(x: int, sep: string, y: int)
    requires |sep| >= 1 && sep[0] == ' '
    ensures Split(StackVar(x) + sep + StackVar(y), sep) == [StackVar(x), StackVar(y)]
  {
    NotInSlotName(x, ' ');
    NotInSlotName(y, ' ');
    SplitFirst(StackVar(x), sep, StackVar(y));
    SplitWhole(StackVar(y), sep);
  }

  /**
   * DMUL and DSUB pop the top two slots into a new one: the statement assigns
   * slot `n` a product or difference whose operands are `s{n-2}` and
   * `s{n-1}`, in that order.
   */
  lemma EmitArithmetic(byteIndex: int, opcode: int, params: seq<Byte>, n: int, pool: Pool)
    requires opcode == DMUL || opcode == DSUB
    ensures Emit(byteIndex, opcode, params, n, pool).Ok?
    ensures var e := Emit(byteIndex, opcode, params, n, pool).value;
      e.pushed == 1 && |e.writes| == 1 && e.writes[0].0 == byteIndex
      && var sides := Split(e.writes[0].1, " = ");
      |sides| == 2 && sides[0] == StackVar(n)
      && Split(sides[1], if opcode == DMUL then " * " else " - ") == [StackVar(n - 2), StackVar(n - 1)]
  {
    var op := if opcode == DMUL then " * " else " - ";
    var rhs := StackVar(n - 2) + op + StackVar(n - 1);
    assert PushedText(opcode, n) == rhs;
    NotInSlotName(n, ' ');
    NotInSlotName(n - 2, '=');
    NotInSlotName(n - 1, '=');
    SplitAssignment(StackVar(n), rhs);
    SplitSlots(n - 2, op, n - 1);
  }

  /**
   * DCMPL assigns slot `n` the sign of `s{n-2} - s{n-1}`, written
   * `(d)/|d|` with `d` that difference.
   */
  lemma EmitCompare(byteIndex: int, params: seq<Byte>, n: int, pool: Pool)
    ensures Emit(byteIndex, DCMPL, params, n, pool).Ok?
    ensures var e := Emit(byteIndex, DCMPL, params, n, pool).value;
      e.pushed == 1 && |e.writes| == 1 && e.writes[0].0 == byteIndex
      && var d := StackVar(n - 2) + " - " + StackVar(n - 1);
      Split(e.writes[0].1, " = ") == [StackVar(n), "(" + d + ")/|" + d + "|"]
      && Split(d, " - ") == [StackVar(n - 2), StackVar(n - 1)]
  {
    var d := StackVar(n - 2) + " - " + StackVar(n - 1);
    var rhs := "(" + d + ")/|" + d + "|";
    assert PushedText(DCMPL, n) == rhs;
    NotInSlotName(n, ' ');
    NotInSlotName(n - 2, '=');
    NotInSlotName(n - 1, '=');
    assert '=' !in d;
    SplitAssignment(StackVar(n), rhs);
    SplitSlots(n - 2, " - ", n - 1);
  }

  /** `IINC k c` assigns `v{k} + c` to `v{k}`, with both operand bytes read signed. */
  lemma EmitIncrement(byteIndex: int, params: seq<Byte>, n: int, pool: Pool)
    requires |params| >= 2
    ensures Emit(byteIndex, IINC, params, n, pool).Ok?
    ensures Split(Emit(byteIndex, IINC, params, n, pool).value.writes[0].1, " = ") ==
      [LocalVar(params[0]), LocalVar(params[0]) + " + " + IntToString(params[1])]
  {
    NotInIntText(params[0], ' ');
    NotInIntText(params[0], '=');
    NotInIntText(params[1], '=');
    SplitAssignment(LocalVar(params[0]), LocalVar(params[0]) + " + " + IntToString(params[1]));
  }

  /** A call's argument list splits on `", "` back into the slot names it lists. */
  lemma ArgListSplit(top: int, count: nat)
    requires count >= 1
    ensures Split(ArgList(top, count), ", ") == SlotsDown(top, count)
  {
    forall k | 0 <= k < count
      ensures ',' !in SlotsDown(top, count)[k]
    {
      NotInSlotName(top - k, ',');
    }
    JoinSplit(SlotsDown(top, count), ", ");
  }
}

/**
 * The intermediate code of one method: its statements keyed by byte index in
 * insertion order, and the counter that names the next stack slot.
 */
module Intermediate {
  import opened Wrappers
  import opened Text
  import opened LinkedMaps
  import opened Opcodes
  import opened Blocks
  import opened Emulation

  /** The type names whose presence in an argument descriptor `INVOKEVIRTUAL` counts. */
  const ArgTypes: seq<string> := ["D", "Object"]

  /** Adding one more name to an argument list appends `", "` and the name. */
  lemma ArgListSnoc(top: int, count: nat)
    ensures ArgList(top, count + 1) == if count == 0 then StackVar(top) else ArgList(top, count) + ", " + StackVar(top - count)
  {
    var names := SlotsDown(top, count + 1);
    if count > 0 {
      assert names == SlotsDown(top, count) + [StackVar(top - count)];
      JoinSnoc(SlotsDown(top, count), StackVar(top - count), ", ");
    }
  }

  /**
   * The loops that build a call's argument text: `count` slot names from
   * `top` downwards, with `", "` after every name but the last.
   */
  method ParamsString(top: int, count: nat) returns (s: string)
    ensures s == ArgList(top, count)
  {
    s := "";
    var i := 0;
    while i < count
      invariant 0 <= i <= count
      invariant s == if i == 0 then "" else ArgList(top, i) + (if i < count then ", " else "")
    {
      ArgListSnoc(top, i);
      if i == 0 {
        assert s + StackVar(top) == StackVar(top);
      }
      s := s + StackVar(top - i);
      assert s == ArgList(top, i + 1);
      if i != count - 1 {
        s := s + ", ";
      }
      i := i + 1;
    }
  }

  /** The loop over `argTypes` that counts the argument types present in `args`. */
  method CountArgTypes(args: string) returns (count: nat)
    ensures count == VirtualArgCount(args)
  {
    count := 0;
    var i := 0;
    while i < |ArgTypes|
      invariant 0 <= i <= |ArgTypes|
      invariant count == (if i >= 1 && Contains(args, "D") then 1 else 0) + (if i >= 2 && Contains(args, "Object") then 1 else 0)
    {
      if Contains(args, ArgTypes[i]) {
        count := count + 1;
      }
      i := i + 1;
    }
  }

  /** A statement that assigns to a stack slot: it has `=`, no `goto`, and `s` and digits before its first `" = "`. */
  predicate IsStackAssignment(stmt: string) {
    Contains(stmt, "=") && !Contains(stmt, "goto") && IsStackVarName(Split(stmt, " = ")[0])
  }

  /** The keys whose statements assign to stack slots. */
  function StackAssignmentKeys(code: Code): (keys: set<int>)
    ensures forall k :: k in keys <==> k in code.entries && IsStackAssignment(code.entries[k])
  {
    set k | k in code.entries && IsStackAssignment(code.entries[k])
  }

  /** The code with every stack-slot assignment removed; the other statements keep their keys and order. */
  function WithoutStackAssignments(code: Code): (r: Code)
    ensures forall k :: k in r.entries ==> !IsStackAssignment(r.entries[k])
    ensures forall k :: k in code.entries && !IsStackAssignment(code.entries[k]) ==> k in r.entries && r.entries[k] == code.entries[k]
    ensures forall k :: k in r.entries ==> k in code.entries
    ensures r.order == Without(code.order, StackAssignmentKeys(code))
  {
    var r := RemoveAll(code, StackAssignmentKeys(code));
    assert forall k :: k in r.entries ==> Get(r, k) == Get(code, k);
    r
  }

  /** Removing the stack-slot assignments a second time changes nothing. */
  lemma RemoveStackVarIdempotent(code: Code)
    ensures WithoutStackAssignments(WithoutStackAssignments(code)) == WithoutStackAssignments(code)
  {
    var once := WithoutStackAssignments(code);
    assert StackAssignmentKeys(once) == {};
    RemoveNothing(once);
  }

  /** A call whose pool entry is found is translated by `StaticEmit` or `VirtualEmit`, into one statement. */
  lemma EmitCall(byteIndex: int, opcode: int, params: seq<Byte>, n: int, pool: Pool)
    requires (opcode == INVOKESTATIC || opcode == INVOKEVIRTUAL) && |params| >= 2 && PoolIndex(params[0], params[1]) in pool
    ensures var sig := pool[PoolIndex(params[0], params[1])];
      Emit(byteIndex, opcode, params, n, pool) ==
        if opcode == INVOKESTATIC then StaticEmit(byteIndex, sig, n) else VirtualEmit(byteIndex, sig, n)
  {
  }

  /** Applying a single write is one `Put`. */
  lemma PutAllOne(code: Code, writes: seq<(int, string)>)
    requires |writes| == 1
    ensures PutAll(code, writes) == Put(code, writes[0].0, writes[0].1)
  {
  }

  /** `indicesToRemove`: the keys of the stack-slot assignments among `entries`, in order. */
  method CollectStackAssignments(code: Code) returns (indices: seq<int>)
    ensures KeysOf(indices) == StackAssignmentKeys(code)
  {
    var entries := Entries(code);
    indices := [];
    var i := 0;
    while i < |entries|
      invariant 0 <= i <= |entries|
      invariant forall k :: k in indices <==> k in code.order[..i] && IsStackAssignment(code.entries[k])
    {
      var (byteIndex, instr) := entries[i];
      if Contains(instr, "=") && !Contains(instr, "goto") {
        var leftSide := Split(instr, " = ")[0];
        if IsStackVarName(leftSide) {
          indices := indices + [byteIndex];
        }
      }
      assert code.order[..i + 1] == code.order[..i] + [code.order[i]];
      i := i + 1;
    }
    assert code.order[..i] == code.order;
    assert forall k :: k in indices <==> k in StackAssignmentKeys(code);
  }

  /** The keys listed in `indices`. */
  function KeysOf(indices: seq<int>): (keys: set<int>)
    ensures forall k :: k in keys <==> k in indices
  {
    set k | k in indices
  }

  /** Removing the next key of `indices` extends the removed prefix by one. */
  lemma RemoveStep(code: Code, indices: seq<int>, j: nat)
    requires j < |indices|
    ensures Remove(RemoveAll(code, KeysOf(indices[..j])), indices[j]) == RemoveAll(code, KeysOf(indices[..j + 1]))
  {
    assert indices[..j + 1] == indices[..j] + [indices[j]];
    assert KeysOf(indices[..j + 1]) == KeysOf(indices[..j]) + {indices[j]};
    RemoveAfterRemoveAll(code, KeysOf(indices[..j]), indices[j]);
  }

  /** Removes the keys in `indices` one by one. */
  method RemoveEach(code: Code, indices: seq<int>) returns (result: Code)
    ensures result == RemoveAll(code, KeysOf(indices))
  {
    RemoveNothing(code);
    assert KeysOf(indices[..0]) == {};
    result := code;
    var j := 0;
    while j < |indices|
      invariant 0 <= j <= |indices|
      invariant result == RemoveAll(code, KeysOf(indices[..j]))
    {
      RemoveStep(code, indices, j);
      result := Remove(result, indices[j]);
      j := j + 1;
    }
    assert indices[..j] == indices;
  }

  /**
   * The statement the `INVOKEVIRTUAL` arm of `applyOpcode` writes for the
   * method `sig` with the slot counter at `n`, built with its loops over the
   * argument types and the arguments.
   */
  method VirtualEmission(byteIndex: int, sig: string, n: int) returns (r: Result<Emission>)
    ensures r == VirtualEmit(byteIndex, sig, n)
  {
    var closed := Split(sig, ")");
    if |closed| < 2 {
      return Err(IndexOutOfBounds);
    }
    var returnType := closed[1];
    var name := SimpleName(sig);
    var args := ArgDescriptor(sig);
    if args.Err? {
      return Err(args.error);
    }
    var numOfArgs := CountArgTypes(args.value);
    var paramsString := ParamsString(n - 1, numOfArgs);
    r := VirtualCall(byteIndex, returnType, name, n, numOfArgs, paramsString);
  }

  class IntermediateCode {
    var code: Code
    var stackVarIndex: int
    /** The constant pool of the class file the method belongs to. */
    const pool: Pool

    /** The slot counter starts at zero and only grows. */
    ghost predicate Valid()
      reads this
    {
      stackVarIndex >= 0
    }

    constructor(pool: Pool)
      ensures Valid() && code == Empty() && stackVarIndex == 0 && this.pool == pool
    {
      code := Empty();
      stackVarIndex := 0;
      this.pool := pool;
    }

    /**
     * `applyOpcode`: translates one instruction at `byteIndex`, storing its
     * statements and advancing the slot counter, or reports the exception
     * the translation throws and changes nothing.
     */
    method ApplyOpcode(byteIndex: int, opcode: int, params: seq<Byte>) returns (error: Option<Exception>)
      requires Valid()
      modifies this
      ensures Valid()
      ensures match Apply(pool, byteIndex, opcode, params, old(Translation(code, stackVarIndex)))
        case Ok(t) => error == None && code == t.code && stackVarIndex == t.stackVarIndex
        case Err(x) => error == Some(x) && code == old(code) && stackVarIndex == old(stackVarIndex)
    {
      if opcode == INVOKESTATIC || opcode == INVOKEVIRTUAL {
        if |params| < 2 {
          return Some(IndexOutOfBounds);
        }
        var cpIndex := PoolIndex(params[0], params[1]);
        if cpIndex !in pool {
          return Some(ClassFormat);
        }
        EmitCall(byteIndex, opcode, params, stackVarIndex, pool);
        var r := Emit(byteIndex, opcode, params, stackVarIndex, pool);
        if r.Ok? {
          PutAllOne(code, r.value.writes);
        }
        if opcode == INVOKESTATIC {
          error := ApplyStatic(byteIndex, pool[cpIndex]);
        } else {
          error := ApplyVirtual(byteIndex, pool[cpIndex]);
        }
        return;
      }
      match Emit(byteIndex, opcode, params, stackVarIndex, pool)
      case Err(x) =>
        error := Some(x);
      case Ok(e) =>
        code := PutAll(code, e.writes);
        stackVarIndex := stackVarIndex + e.pushed;
        error := None;
    }

    /** The `INVOKESTATIC` arm of `applyOpcode` once the pool entry `sig` is found, with its argument loop. */
    method ApplyStatic(byteIndex: int, sig: string) returns (error: Option<Exception>)
      requires Valid()
      modifies this
      ensures Valid()
      ensures match StaticEmit(byteIndex, sig, old(stackVarIndex))
        case Ok(e) => error == None && code == Put(old(code), byteIndex, e.writes[0].1) && stackVarIndex == old(stackVarIndex) + e.pushed
        case Err(x) => error == Some(x) && code == old(code) && stackVarIndex == old(stackVarIndex)
    {
      var n := stackVarIndex;
      var name := MethodName(sig);
      var args := ArgDescriptor(sig);
      if args.Err? {
        return Some(args.error);
      }
      var numOfArgs := |Split(args.value, ";")|;
      var paramsString := ParamsString(n - 1, numOfArgs - 1);
      assert StaticEmit(byteIndex, sig, n) == One(byteIndex, Assign(n, name + "(" + paramsString + ")"), 1);
      code := Put(code, byteIndex, Assign(n, name + "(" + paramsString + ")"));
      stackVarIndex := n + 1;
      error := None;
    }

    /**
     * The `INVOKEVIRTUAL` arm of `applyOpcode` once the pool entry `sig` is
     * found, with its loops over the argument types and the arguments.
     */
    method ApplyVirtual(byteIndex: int, sig: string) returns (error: Option<Exception>)
      requires Valid()
      modifies this
      ensures Valid()
      ensures match VirtualEmit(byteIndex, sig, old(stackVarIndex))
        case Ok(e) => error == None && code == Put(old(code), byteIndex, e.writes[0].1) && stackVarIndex == old(stackVarIndex) + e.pushed
        case Err(x) => error == Some(x) && code == old(code) && stackVarIndex == old(stackVarIndex)
    {
      var emission := VirtualEmission(byteIndex, sig, stackVarIndex);
      if emission.Err? {
        return Some(emission.error);
      }
      code := Put(code, byteIndex, emission.value.writes[0].1);
      stackVarIndex := stackVarIndex + emission.value.pushed;
      error := None;
    }

    /** `getLength`: the number of statements. */
    method GetLength() returns (length: int)
      ensures length == |code.entries.Keys| && length == |code.order|
    {
      SizeIsKeyCount(code);
      length := |code.order|;
    }

    function GetCode(): Code
      reads this
    {
      code
    }

    /** `set`: stores `stmt` under `byteIndex`, replacing any statement there in place. */
    method Set(byteIndex: int, stmt: string)
      modifies this
      ensures code == Put(old(code), byteIndex, stmt) && stackVarIndex == old(stackVarIndex)
    {
      code := Put(code, byteIndex, stmt);
    }

    /** `setCode`: replaces the statements. */
    method SetCode(newCode: Code)
      modifies this
      ensures code == newCode && stackVarIndex == old(stackVarIndex)
    {
      code := newCode;
    }

    /**
     * `removeStackVar`: collects the keys of the statements that assign to a
     * stack slot, then removes them one by one.
     */
    method RemoveStackVar()
      modifies this
      ensures code == WithoutStackAssignments(old(code)) && stackVarIndex == old(stackVarIndex)
    {
      var indicesToRemove := CollectStackAssignments(code);
      code := RemoveEach(code, indicesToRemove);
    }

    /** `toString`: one line per statement, in key order. */
    method ToString() returns (result: string)
      ensures result == Render(code)
    {
      var entries := Entries(code);
      result := "";
      var i := 0;
      while i < |entries|
        invariant 0 <= i <= |entries|
        invariant result == Lines(entries[..i])
      {
        if entries[i].0 >= 0 {
          result := result + IntToString(entries[i].0);
        }
        result := result + "\t" + entries[i].1 + "\n";
        assert entries[..i + 1][..i] == entries[..i];
        i := i + 1;
      }
      assert entries[..i] == entries;
    }
  }
}
