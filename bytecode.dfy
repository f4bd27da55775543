/**
 * The instruction word of the template virtual machine: a 16-bit word whose
 * top three bits are the opcode tag and whose low thirteen bits are the operand.
 */
module Bytecode {

  /** The eight opcode tags; Include takes the one tag value the others leave free. */
  datatype Opcode = Halt | Copy | Substitute | Immediate | FalseJump | ListEndJump | Jump | Include

  /** An unsigned 16-bit instruction word. */
  type Word = w: nat | w < 0x1_0000

  /** Operands are the low 13 bits, so every operand is below this bound. */
  const OperandLimit: nat := 0x2000

  /** The word the compiler appends last; it halts the machine. */
  const HaltWord: Word := 0

  /** The tag bits of an opcode, as written in the opcode enumeration. */
  function TagValue(op: Opcode): (t: Word)
    ensures t % OperandLimit == 0
  {
    match op
    case Halt => 0
    case Copy => 0x2000
    case Substitute => 0x4000
    case Immediate => 0x6000
    case FalseJump => 0x8000
    case ListEndJump => 0xA000
    case Jump => 0xC000
    case Include => 0xE000
  }

  /** The opcode a word carries: the opcode whose tag value is `w & 0xE000`. */
  function OpcodeOf(w: Word): (op: Opcode)
    ensures TagValue(op) == w - w % OperandLimit
  {
    var t := w / OperandLimit;
    if t == 0 then Halt
    else if t == 1 then Copy
    else if t == 2 then Substitute
    else if t == 3 then Immediate
    else if t == 4 then FalseJump
    else if t == 5 then ListEndJump
    else if t == 6 then Jump
    else Include
  }

  /** The operand a word carries: `w & 0x1FFF`. */
  function OperandOf(w: Word): (x: nat)
    ensures x < OperandLimit
  {
    w % OperandLimit
  }

  /** The word `op | operand` for an operand that fits in 13 bits. */
  function Encode(op: Opcode, operand: nat): (w: Word)
    requires operand < OperandLimit
  {
    TagValue(op) + operand
  }

  /** Decoding an encoded word gives back its opcode and operand. */
  lemma DecodeEncode(op: Opcode, operand: nat)
    requires operand < OperandLimit
    ensures OpcodeOf(Encode(op, operand)) == op
    ensures OperandOf(Encode(op, operand)) == operand
  {
    var w := Encode(op, operand);
    assert w / OperandLimit == TagValue(op) / OperandLimit;
  }

  /** Every word is the encoding of its own opcode and operand. */
  lemma EncodeDecode(w: Word)
    ensures Encode(OpcodeOf(w), OperandOf(w)) == w
  {
  }

  /** A word is the halting word exactly when its tag and its operand are both zero. */
  lemma HaltWordIsZero(w: Word)
    ensures w == HaltWord <==> OpcodeOf(w) == Halt && OperandOf(w) == 0
  {
  }
}
