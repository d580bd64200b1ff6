/**
 * JVM opcode numbers (chapter 7, "Opcode Mnemonics by Opcode", of The Java
 * Virtual Machine Specification) and the operand bytes that follow them.
 */
module Opcodes {

  /** A Kotlin `Byte`: operand bytes are read signed. */
  type Byte = b: int | -128 <= b < 128

  /** `b.toUByte().toInt()`: the same eight bits read as an unsigned value. */
  function Unsigned(b: Byte): (u: int)
    ensures 0 <= u < 256
    ensures (u - b) % 256 == 0
  {
    if b < 0 then b + 256 else b
  }

  /** Two operand bytes as a big-endian unsigned 16-bit constant-pool index, `(hi shl 8) or lo`. */
  function PoolIndex(hi: Byte, lo: Byte): (index: int)
    ensures 0 <= index < 65536
    ensures index / 256 == Unsigned(hi) && index % 256 == Unsigned(lo)
  {
    Unsigned(hi) * 256 + Unsigned(lo)
  }

  const ICONST_0: int := 3
  const ICONST_1: int := 4
  const ICONST_2: int := 5
  const ICONST_3: int := 6
  const ICONST_4: int := 7
  const ICONST_5: int := 8
  const BIPUSH: int := 16
  const SIPUSH: int := 17
  const LDC: int := 18
  const LDC_W: int := 19
  const LDC2_W: int := 20
  const ILOAD: int := 21
  const LLOAD: int := 22
  const FLOAD: int := 23
  const DLOAD: int := 24
  const ALOAD: int := 25
  const ILOAD_0: int := 26
  const ILOAD_1: int := 27
  const ILOAD_2: int := 28
  const ILOAD_3: int := 29
  const DLOAD_0: int := 38
  const DLOAD_1: int := 39
  const DLOAD_2: int := 40
  const DLOAD_3: int := 41
  const ISTORE: int := 54
  const LSTORE: int := 55
  const FSTORE: int := 56
  const DSTORE: int := 57
  const ASTORE: int := 58
  const ISTORE_0: int := 59
  const ISTORE_1: int := 60
  const ISTORE_2: int := 61
  const ISTORE_3: int := 62
  const DSTORE_0: int := 71
  const DSTORE_1: int := 72
  const DSTORE_2: int := 73
  const DSTORE_3: int := 74
  const SWAP: int := 95
  const DSUB: int := 103
  const DMUL: int := 107
  const IINC: int := 132
  const DCMPL: int := 151
  const IFEQ: int := 153
  const IFNE: int := 154
  const IFLT: int := 155
  const IFGE: int := 156
  const IFGT: int := 157
  const IFLE: int := 158
  const IF_ICMPEQ: int := 159
  const IF_ICMPNE: int := 160
  const IF_ICMPLT: int := 161
  const IF_ICMPGE: int := 162
  const IF_ICMPGT: int := 163
  const IF_ICMPLE: int := 164
  const IF_ACMPEQ: int := 165
  const IF_ACMPNE: int := 166
  const GOTO: int := 167
  const RET: int := 169
  const RETURN: int := 177
  const GETSTATIC: int := 178
  const PUTSTATIC: int := 179
  const GETFIELD: int := 180
  const PUTFIELD: int := 181
  const INVOKEVIRTUAL: int := 182
  const INVOKESPECIAL: int := 183
  const INVOKESTATIC: int := 184
  const INVOKEINTERFACE: int := 185
  const INVOKEDYNAMIC: int := 186
  const NEW: int := 187
  const NEWARRAY: int := 188
  const ANEWARRAY: int := 189
  const CHECKCAST: int := 192
  const INSTANCEOF: int := 193
  const MULTIANEWARRAY: int := 197
  const IFNULL: int := 198
  const IFNONNULL: int := 199
  const GOTO_W: int := 200
}
