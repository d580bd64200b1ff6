/**
 * The translator's first stage: the bytecode of each method is cut into
 * instructions, an opcode byte followed by its operand bytes, and each
 * instruction is handed to the stack emulator in turn.
 */
module Reading {
  import opened Wrappers
  import opened Rounds
  import opened LinkedMaps
  import opened Opcodes
  import opened Blocks
  import opened Emulation
  import opened Intermediate

  const OneOperandByte: set<int> :=
    {ALOAD, ASTORE, BIPUSH, DLOAD, DSTORE, FLOAD, FSTORE, ILOAD, ISTORE, LDC, LLOAD, LSTORE, NEWARRAY, RET}
  const TwoOperandBytes: set<int> :=
    {ANEWARRAY, CHECKCAST, GETFIELD, GETSTATIC, GOTO, IF_ACMPEQ, IF_ACMPNE, IF_ICMPEQ, IF_ICMPGE, IF_ICMPGT,
     IF_ICMPLE, IF_ICMPLT, IF_ICMPNE, IFEQ, IFGE, IFGT, IFLE, IFLT, IFNE, IFNONNULL, IFNULL, IINC, INSTANCEOF,
     INVOKESPECIAL, INVOKESTATIC, INVOKEVIRTUAL, LDC_W, LDC2_W, NEW, PUTFIELD, PUTSTATIC, SIPUSH}
  const ThreeOperandBytes: set<int> := {MULTIANEWARRAY}
  const FourOperandBytes: set<int> := {GOTO_W, INVOKEDYNAMIC, INVOKEINTERFACE}

  /** `getNextBytesCount`: how many operand bytes follow `opcode`; none for an opcode not listed. */
  function NextBytesCount(opcode: int): (count: nat)
    ensures count <= 4
  {
    if opcode in OneOperandByte then 1
    else if opcode in TwoOperandBytes then 2
    else if opcode in ThreeOperandBytes then 3
    else if opcode in FourOperandBytes then 4
    else 0
  }

  /** The parser reserves at least as many operand bytes as the emulator reads. */
  lemma OperandsCovered(opcode: int)
    ensures OperandsRead(opcode) <= NextBytesCount(opcode)
  {
  }

  /** One instruction: where it starts, its opcode read unsigned, and the operand bytes collected for it. */
  datatype Instruction = Instruction(byteIndex: nat, opcode: int, params: seq<Byte>)

  /**
   * The operand bytes the inner loop collects for the opcode at `b`: the
   * next `NextBytesCount` bytes, cut short by the end of the code.
   */
  function OperandsAt(bytes: seq<Byte>, b: nat): (params: seq<Byte>)
    requires b < |bytes|
    ensures |params| <= NextBytesCount(Unsigned(bytes[b]))
    ensures b + 1 + |params| <= |bytes| && params == bytes[b + 1..b + 1 + |params|]
    ensures |params| < NextBytesCount(Unsigned(bytes[b])) ==> b + 1 + |params| == |bytes|
  {
    var wanted := b + 1 + NextBytesCount(Unsigned(bytes[b]));
    bytes[b + 1..if wanted <= |bytes| then wanted else |bytes|]
  }

  /**
   * The instructions from byte `from` on: each starts right after the
   * operand bytes of the one before, so the start strictly increases and
   * stays inside the code.
   */
  function InstructionsFrom(bytes: seq<Byte>, from: nat): (instrs: seq<Instruction>)
    ensures forall i :: 0 <= i < |instrs| ==>
      from <= instrs[i].byteIndex < |bytes|
      && instrs[i].opcode == Unsigned(bytes[instrs[i].byteIndex])
      && instrs[i].params == OperandsAt(bytes, instrs[i].byteIndex)
    ensures forall i :: 0 <= i < |instrs| - 1 ==>
      instrs[i + 1].byteIndex == instrs[i].byteIndex + NextBytesCount(instrs[i].opcode) + 1
    ensures from < |bytes| <==> instrs != []
    ensures instrs != [] ==> instrs[0].byteIndex == from
    decreases |bytes| - from
  {
    if from >= |bytes| then []
    else
      var opcode := Unsigned(bytes[from]);
      [Instruction(from, opcode, OperandsAt(bytes, from))] + InstructionsFrom(bytes, from + NextBytesCount(opcode) + 1)
  }

  /** An instruction gets fewer operand bytes than the emulator reads only when the code ends first. */
  lemma ShortOnlyAtEnd(bytes: seq<Byte>, i: nat)
    requires i < |InstructionsFrom(bytes, 0)|
    ensures var instr := InstructionsFrom(bytes, 0)[i];
      |instr.params| < OperandsRead(instr.opcode) ==> instr.byteIndex + 1 + |instr.params| == |bytes|
  {
    OperandsCovered(InstructionsFrom(bytes, 0)[i].opcode);
  }

  /** The emulator on one instruction. */
  function Emulate(pool: Pool, instr: Instruction, t: Translation): Result<Translation> {
    Apply(pool, instr.byteIndex, instr.opcode, instr.params, t)
  }

  /** The emulator over the constant pool `pool`, as a step. */
  function Emulator(pool: Pool): (Instruction, Translation) -> Result<Translation> {
    (instr, t) => Emulate(pool, instr, t)
  }

  /** The emulator applied to `instrs` in order from `t`; the first exception ends the translation. */
  function Translate(instrs: seq<Instruction>, t: Translation, pool: Pool): Result<Translation> {
    Run(Emulator(pool), instrs, t)
  }

  /** The slot counter never goes down over a translation. */
  lemma TranslateCounts(instrs: seq<Instruction>, t: Translation, pool: Pool)
    ensures Translate(instrs, t, pool).Ok? ==> Translate(instrs, t, pool).value.stackVarIndex >= t.stackVarIndex
  {
    RunKeeps(Emulator(pool), (a: Translation, b: Translation) => a.stackVarIndex <= b.stackVarIndex, instrs, t);
  }

  /** The instruction that starts at byte `b`. */
  function InstructionAt(bytes: seq<Byte>, b: nat): (instr: Instruction)
    requires b < |bytes|
    ensures instr.byteIndex == b && instr.opcode == Unsigned(bytes[b]) && instr.params == OperandsAt(bytes, b)
  {
    Instruction(b, Unsigned(bytes[b]), OperandsAt(bytes, b))
  }

  /** Running any step from an instruction start is one step on that instruction, then the ones after it. */
  lemma RunFrom<S>(step: (Instruction, S) -> Result<S>, bytes: seq<Byte>, b: nat, s: S)
    requires b < |bytes|
    ensures Run(step, InstructionsFrom(bytes, b), s)
      == match step(InstructionAt(bytes, b), s)
        case Err(e) => Err(e)
        case Ok(next) => Run(step, InstructionsFrom(bytes, b + NextBytesCount(Unsigned(bytes[b])) + 1), next)
  {
    var instrs := InstructionsFrom(bytes, b);
    assert instrs[1..] == InstructionsFrom(bytes, b + NextBytesCount(Unsigned(bytes[b])) + 1);
  }

  /** The keys `PutAll` can add are the keys it writes. */
  lemma {:induction false} PutAllKeys(code: Code, writes: seq<(int, string)>, k: int)
    requires k in PutAll(code, writes).entries
    ensures k in code.entries || exists i :: 0 <= i < |writes| && writes[i].0 == k
    decreases |writes|
  {
    if writes != [] {
      PutAllKeys(Put(code, writes[0].0, writes[0].1), writes[1..], k);
      if k !in code.entries && k != writes[0].0 {
        var i :| 0 <= i < |writes[1..]| && writes[1..][i].0 == k;
        assert writes[i + 1].0 == k;
      }
    }
  }

  /** The keys one instruction can add: its start, and for `SWAP` the extra key `-1 - byteIndex`. */
  lemma EmulateKeys(pool: Pool, instr: Instruction, t: Translation, k: int)
    requires Emulate(pool, instr, t).Ok? && k in Emulate(pool, instr, t).value.code.entries
    ensures k in t.code.entries || k == instr.byteIndex || (instr.opcode == SWAP && k == -1 - instr.byteIndex)
  {
    var e := Emit(instr.byteIndex, instr.opcode, instr.params, t.stackVarIndex, pool).value;
    assert Emulate(pool, instr, t).value.code == PutAll(t.code, e.writes);
    if k !in t.code.entries {
      PutAllKeys(t.code, e.writes, k);
    }
  }

  /**
   * Every statement key of a translation is the start of one of its
   * instructions, or the extra key `-1 - byteIndex` of a `SWAP`.
   */
  lemma {:induction false} TranslateKeys(instrs: seq<Instruction>, t: Translation, pool: Pool, k: int)
    requires Translate(instrs, t, pool).Ok? && k in Translate(instrs, t, pool).value.code.entries
    ensures k in t.code.entries
      || exists i :: 0 <= i < |instrs| && (k == instrs[i].byteIndex || (instrs[i].opcode == SWAP && k == -1 - instrs[i].byteIndex))
    decreases |instrs|
  {
    if instrs != [] {
      var next := Emulate(pool, instrs[0], t).value;
      assert Translate(instrs, t, pool) == Translate(instrs[1..], next, pool);
      TranslateKeys(instrs[1..], next, pool, k);
      if k in next.code.entries {
        EmulateKeys(pool, instrs[0], t, k);
      } else {
        var i :| 0 <= i < |instrs[1..]| && (k == instrs[1..][i].byteIndex || (instrs[1..][i].opcode == SWAP && k == -1 - instrs[1..][i].byteIndex));
        assert instrs[i + 1] == instrs[1..][i];
      }
    }
  }

  /**
   * The inner `for (i in 1..nextBytesCount)` loop: collects the operand
   * bytes after `byteIndex`, breaking off at the end of the code.
   */
  method OperandBytes(bytes: seq<Byte>, byteIndex: nat, count: nat) returns (params: seq<Byte>)
    requires byteIndex < |bytes| && count == NextBytesCount(Unsigned(bytes[byteIndex]))
    ensures params == OperandsAt(bytes, byteIndex)
  {
    params := [];
    var i := 1;
    while i <= count
      invariant 1 <= i <= count + 1 && byteIndex + i <= |bytes|
      invariant params == bytes[byteIndex + 1..byteIndex + i]
    {
      if byteIndex + i == |bytes| {
        break;
      }
      params := params + [bytes[byteIndex + i]];
      i := i + 1;
    }
  }

  /** The start of every method's translation: an empty table and slot counter zero. */
  const Start := Translation(Empty(), 0)

  /**
   * One turn of the `while (byteIndex < size)` loop: the opcode and its
   * operand bytes are read and handed to the emulator, and the index moves
   * past them.
   */
  method ReadInstruction(irc: IntermediateCode, bytes: seq<Byte>, byteIndex: nat) returns (error: Option<Exception>, next: nat)
    requires irc.Valid() && byteIndex < |bytes|
    modifies irc
    ensures irc.Valid() && next == byteIndex + NextBytesCount(Unsigned(bytes[byteIndex])) + 1
    ensures match Emulate(irc.pool, InstructionAt(bytes, byteIndex), old(Translation(irc.code, irc.stackVarIndex)))
      case Ok(t) => error == None && irc.code == t.code && irc.stackVarIndex == t.stackVarIndex
      case Err(e) => error == Some(e)
  {
    var opcode := Unsigned(bytes[byteIndex]);
    var nextBytesCount := NextBytesCount(opcode);
    var opcodeParams := OperandBytes(bytes, byteIndex, nextBytesCount);
    error := irc.ApplyOpcode(byteIndex, opcode, opcodeParams);
    next := byteIndex + nextBytesCount + 1;
  }

  /** After an instruction a step accepts, the rest of the run goes on from its result. */
  lemma RunStep<S>(step: (Instruction, S) -> Result<S>, bytes: seq<Byte>, b: nat, before: S, after: S, next: nat)
    requires b < |bytes| && step(InstructionAt(bytes, b), before) == Ok(after)
    requires next == b + NextBytesCount(Unsigned(bytes[b])) + 1
    ensures Run(step, InstructionsFrom(bytes, next), after) == Run(step, InstructionsFrom(bytes, b), before)
  {
    RunFrom(step, bytes, b, before);
  }

  /** An instruction a step throws on ends the run with that exception. */
  lemma RunStops<S>(step: (Instruction, S) -> Result<S>, bytes: seq<Byte>, b: nat, before: S, e: Exception)
    requires b < |bytes| && step(InstructionAt(bytes, b), before) == Err(e)
    ensures Run(step, InstructionsFrom(bytes, b), before) == Err(e)
  {
    RunFrom(step, bytes, b, before);
  }

  /**
   * The `while (byteIndex < size)` loop over one method's code: each
   * instruction is translated into a fresh emulator, and `byteIndex` moves
   * past its operand bytes.
   */
  method ReadMethod(bytes: seq<Byte>, pool: Pool) returns (r: Result<IntermediateCode>)
    ensures match TranslateMethod(pool, bytes)
      case Ok(t) => r.Ok? && fresh(r.value) && r.value.Valid() && r.value.pool == pool
        && r.value.code == t.code && r.value.stackVarIndex == t.stackVarIndex
      case Err(e) => r == Err(e)
  {
    var irc := new IntermediateCode(pool);
    var byteIndex: nat := 0;
    while byteIndex < |bytes|
      invariant fresh(irc) && irc.Valid() && irc.pool == pool
      invariant Translate(InstructionsFrom(bytes, byteIndex), Translation(irc.code, irc.stackVarIndex), pool) == TranslateMethod(pool, bytes)
      decreases |bytes| - byteIndex
    {
      ghost var before := Translation(irc.code, irc.stackVarIndex);
      ghost var b := byteIndex;
      var error;
      error, byteIndex := ReadInstruction(irc, bytes, byteIndex);
      if error.Some? {
        RunStops(Emulator(pool), bytes, b, before, error.value);
        return Err(error.value);
      }
      RunStep(Emulator(pool), bytes, b, before, Translation(irc.code, irc.stackVarIndex), byteIndex);
    }
    return Ok(irc);
  }

  /** One method's bytecode translated from the start. */
  function TranslateMethod(pool: Pool, bytes: seq<Byte>): Result<Translation> {
    Translate(InstructionsFrom(bytes, 0), Start, pool)
  }

  /** A method of `n` bytes holds at most `n` instructions. */
  lemma {:induction false} InstructionCount(bytes: seq<Byte>, from: nat)
    requires from <= |bytes|
    ensures |InstructionsFrom(bytes, from)| <= |bytes| - from
    decreases |bytes| - from
  {
    if from < |bytes| {
      var next := from + NextBytesCount(Unsigned(bytes[from])) + 1;
      if next <= |bytes| {
        InstructionCount(bytes, next);
      }
    }
  }

  /** Each instruction pushes at most two slots, so `n` instructions raise the counter by at most `2 * n`. */
  lemma {:induction false} TranslateBound(instrs: seq<Instruction>, t: Translation, pool: Pool)
    ensures Translate(instrs, t, pool).Ok? ==> Translate(instrs, t, pool).value.stackVarIndex <= t.stackVarIndex + 2 * |instrs|
    decreases |instrs|
  {
    if instrs != [] && Emulate(pool, instrs[0], t).Ok? {
      var next := Emulate(pool, instrs[0], t).value;
      var e := Emit(instrs[0].byteIndex, instrs[0].opcode, instrs[0].params, t.stackVarIndex, pool).value;
      assert next.stackVarIndex == t.stackVarIndex + e.pushed <= t.stackVarIndex + 2;
      assert Translate(instrs, t, pool) == Translate(instrs[1..], next, pool);
      TranslateBound(instrs[1..], next, pool);
    }
  }

  /**
   * The integers a translated method produces stay within its size: the slot
   * counter lies in `0..2 * |bytes|` and every statement key in
   * `-|bytes|..|bytes| - 1`. The class-file format limits a method's code to
   * 65535 bytes, so none of them reaches the limits of Kotlin's `Int`.
   */
  lemma MethodBounds(pool: Pool, bytes: seq<Byte>, k: int)
    requires TranslateMethod(pool, bytes).Ok?
    ensures 0 <= TranslateMethod(pool, bytes).value.stackVarIndex <= 2 * |bytes|
    ensures k in TranslateMethod(pool, bytes).value.code.entries ==> -|bytes| <= k < |bytes|
  {
    var instrs := InstructionsFrom(bytes, 0);
    InstructionCount(bytes, 0);
    TranslateBound(instrs, Start, pool);
    TranslateCounts(instrs, Start, pool);
    if k in TranslateMethod(pool, bytes).value.code.entries {
      TranslateKeys(instrs, Start, pool, k);
    }
  }

  /** The non-negative elements of `s` appear in increasing order. */
  predicate IncreasingNonNegative(s: seq<int>) {
    forall i, j :: 0 <= i < j < |s| && 0 <= s[i] && 0 <= s[j] ==> s[i] < s[j]
  }

  /** Every key of `order` is below `bound`, and the non-negative ones increase. */
  predicate ForwardBelow(order: seq<int>, bound: int) {
    IncreasingNonNegative(order) && forall i :: 0 <= i < |order| ==> order[i] < bound
  }

  /** Writing keys `b` and `-1 - b`, with every earlier key at most `b`, keeps the non-negative keys increasing. */
  lemma {:induction false} PutAllForward(code: Code, writes: seq<(int, string)>, b: int, bound: int)
    requires ForwardBelow(code.order, bound) && bound <= b + 1 && 0 <= b
    requires forall i :: 0 <= i < |writes| ==> writes[i].0 == b || writes[i].0 == -1 - b
    ensures ForwardBelow(PutAll(code, writes).order, b + 1)
    decreases |writes|
  {
    if writes == [] {
    } else {
      var next := Put(code, writes[0].0, writes[0].1);
      assert ForwardBelow(next.order, b + 1);
      PutAllForward(next, writes[1..], b, b + 1);
    }
  }

  /** The emulator on an instruction at or past every earlier key keeps the non-negative keys increasing. */
  lemma EmulateForward(pool: Pool, instr: Instruction, t: Translation, bound: int)
    requires ForwardBelow(t.code.order, bound) && bound <= instr.byteIndex
    requires Emulate(pool, instr, t).Ok?
    ensures ForwardBelow(Emulate(pool, instr, t).value.code.order, instr.byteIndex + 1)
  {
    var e := Emit(instr.byteIndex, instr.opcode, instr.params, t.stackVarIndex, pool).value;
    PutAllForward(t.code, e.writes, instr.byteIndex, bound);
  }

  /** Instructions at increasing byte indices add their keys in increasing order. */
  lemma {:induction false} TranslateForward(instrs: seq<Instruction>, t: Translation, pool: Pool, bound: int)
    requires ForwardBelow(t.code.order, bound)
    requires instrs != [] ==> bound <= instrs[0].byteIndex
    requires forall i :: 0 <= i < |instrs| - 1 ==> instrs[i].byteIndex < instrs[i + 1].byteIndex
    ensures Translate(instrs, t, pool).Ok? ==> IncreasingNonNegative(Translate(instrs, t, pool).value.code.order)
    decreases |instrs|
  {
    if instrs != [] && Emulate(pool, instrs[0], t).Ok? {
      var next := Emulate(pool, instrs[0], t).value;
      EmulateForward(pool, instrs[0], t, bound);
      assert Translate(instrs, t, pool) == Translate(instrs[1..], next, pool);
      TranslateForward(instrs[1..], next, pool, instrs[0].byteIndex + 1);
    }
  }

  /**
   * A translated method lists its statements in byte order, apart from the
   * negative keys of `SWAP`'s second statements, each listed after the
   * statement of its own `SWAP`.
   */
  lemma MethodForward(pool: Pool, bytes: seq<Byte>)
    requires TranslateMethod(pool, bytes).Ok?
    ensures IncreasingNonNegative(TranslateMethod(pool, bytes).value.code.order)
  {
    var instrs := InstructionsFrom(bytes, 0);
    TranslateForward(instrs, Start, pool, 0);
  }

  /** The translation of one method over the constant pool `pool`. */
  function Translator(pool: Pool): seq<Byte> -> Result<Translation> {
    bytes => TranslateMethod(pool, bytes)
  }

  /** Every method translated in order; the first method that throws ends the run. */
  function TranslateAll(methods: seq<seq<Byte>>, pool: Pool): Result<seq<Translation>> {
    RunEach(Translator(pool), methods)
  }

  /** The `for (method in classFile.methods)` loop: one emulator per method, in order. */
  method ReadMethods(methods: seq<seq<Byte>>, pool: Pool) returns (r: Result<seq<IntermediateCode>>)
    ensures match TranslateAll(methods, pool)
      case Ok(ts) => r.Ok? && |r.value| == |ts| && forall i :: 0 <= i < |ts| ==>
        fresh(r.value[i]) && r.value[i].Valid() && r.value[i].pool == pool
        && ts[i] == Translation(r.value[i].code, r.value[i].stackVarIndex)
      case Err(e) => r == Err(e)
  {
    var intermediateCodes: seq<IntermediateCode> := [];
    ghost var ts: seq<Translation> := [];
    var i := 0;
    while i < |methods|
      invariant 0 <= i <= |methods| && |intermediateCodes| == i == |ts|
      invariant TranslateAll(methods[..i], pool) == Ok(ts)
      invariant forall j :: 0 <= j < i ==>
        fresh(intermediateCodes[j]) && intermediateCodes[j].Valid() && intermediateCodes[j].pool == pool
        && ts[j] == Translation(intermediateCodes[j].code, intermediateCodes[j].stackVarIndex)
    {
      RunEachSnoc(Translator(pool), methods, i);
      var irc := ReadMethod(methods[i], pool);
      if irc.Err? {
        RunEachStops(Translator(pool), methods, i + 1);
        return Err(irc.error);
      }
      var ic := irc.value;
      ts := ts + [Translation(ic.code, ic.stackVarIndex)];
      intermediateCodes := intermediateCodes + [ic];
      i := i + 1;
    }
    assert methods[..i] == methods;
    return Ok(intermediateCodes);
  }
}
