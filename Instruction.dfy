/** The instruction decoder: fixed bit-fields of a 16-bit CHIP-8 instruction word.
    The word is held in a Java `int`. Each getter masks and shifts; on a two's-complement
    value, `(w & 0xF000) >> 12` is bits 12..15 of `(w mod 2^16)`, which is how the getters
    are written here (Dafny's `%` is Euclidean, so `w % 0x1_0000` is never negative). */
module Instructions {
  import opened JavaInt

  /** An immutable instruction: the value is fixed at construction and no getter changes it. */
  datatype Instruction = Instruction(word: int32) {

    /** `(instruction & 0xF000) >> 12`: the opcode nibble, bits 12..15. */
    function OpCode(): (r: int)
      ensures 0 <= r < 0x10
    {
      (word % 0x1_0000) / 0x1000
    }

    /** `(instruction & 0x0F00) >> 8`: the register `X`, bits 8..11. */
    function X(): (r: int)
      ensures 0 <= r < 0x10
    {
      (word % 0x1000) / 0x100
    }

    /** `(instruction & 0x00F0) >> 4`: the register `Y`, bits 4..7. */
    function Y(): (r: int)
      ensures 0 <= r < 0x10
    {
      (word % 0x100) / 0x10
    }

    /** `instruction & 0x000F`: the nibble `N`, bits 0..3. */
    function N(): (r: int)
      ensures 0 <= r < 0x10
    {
      word % 0x10
    }

    /** `instruction & 0x00FF`: the byte `NN`, bits 0..7. */
    function NN(): (r: int)
      ensures 0 <= r < 0x100
    {
      word % 0x100
    }

    /** `instruction & 0x0FFF`: the address `NNN`, bits 0..11. */
    function NNN(): (r: int)
      ensures 0 <= r < 0x1000
    {
      word % 0x1000
    }
  }

  /** Two instructions with the same decoded fields. */
  predicate SameFields(a: Instruction, b: Instruction) {
    a.OpCode() == b.OpCode() && a.X() == b.X() && a.Y() == b.Y() &&
    a.N() == b.N() && a.NN() == b.NN() && a.NNN() == b.NNN()
  }

  /** The word with opcode nibble `op`, register `x` and low byte `nn`. */
  function Assemble(op: int, x: int, nn: int): (w: int32)
    requires 0 <= op < 0x10 && 0 <= x < 0x10 && 0 <= nn < 0x100
    ensures 0 <= w < 0x1_0000
  {
    op * 0x1000 + x * 0x100 + nn
  }

  /** The fields fit back together: `NN` is `Y` then `N`, `NNN` is `X` then `NN`,
      and the opcode nibble on top of `NNN` is the low 16 bits of the word. */
  lemma Recompose(ins: Instruction)
    ensures ins.NN() == ins.Y() * 0x10 + ins.N()
    ensures ins.NNN() == ins.X() * 0x100 + ins.NN()
    ensures ins.OpCode() * 0x1000 + ins.NNN() == ins.word % 0x1_0000
  {
    var w := ins.word;
    ModOfMod(w, 0x10, 0x10);
    ModOfMod(w, 0x100, 0x10);
    ModOfMod(w, 0x1000, 0x10);
  }

  /** `(w % (a * b)) % a == w % a` and `(w % (a * b)) == a * ((w % (a * b)) / a) + w % a`. */
  lemma ModOfMod(w: int, a: int, b: int)
    requires a > 0 && b > 0
    ensures (w % (a * b)) % a == w % a
    ensures w % (a * b) == a * ((w % (a * b)) / a) + w % a
  {
    var q := w / (a * b);
    var r := w % (a * b);
    assert w == (a * b) * q + r;
    assert w == a * (b * q) + r;
    var s := r % a;
    assert r == a * (r / a) + s;
    assert w == a * (b * q + r / a) + s;
    assert 0 <= s < a;
    DivModUnique(w, a, b * q + r / a, s);
  }

  /** Every field depends only on the low 16 bits of the word. */
  lemma {:induction false} DependsOnLow16(a: Instruction, b: Instruction)
    requires a.word % 0x1_0000 == b.word % 0x1_0000
    ensures SameFields(a, b)
  {
    ModOfMod(a.word, 0x10, 0x1000);
    ModOfMod(b.word, 0x10, 0x1000);
    ModOfMod(a.word, 0x100, 0x100);
    ModOfMod(b.word, 0x100, 0x100);
    ModOfMod(a.word, 0x1000, 0x10);
    ModOfMod(b.word, 0x1000, 0x10);
  }

  /** Decoding an assembled word gives back its parts. */
  lemma DecodeAssemble(op: int, x: int, nn: int)
    requires 0 <= op < 0x10 && 0 <= x < 0x10 && 0 <= nn < 0x100
    ensures var ins := Instruction(Assemble(op, x, nn));
      ins.OpCode() == op && ins.X() == x && ins.NN() == nn &&
      ins.Y() == nn / 0x10 && ins.N() == nn % 0x10
  {
    var w := Assemble(op, x, nn);
    DivModUnique(w, 0x1000, op, x * 0x100 + nn);
    DivModUnique(w, 0x100, op * 0x10 + x, nn);
    DivModUnique(x * 0x100 + nn, 0x100, x, nn);
    DivModUnique(w, 0x10, op * 0x100 + x * 0x10 + nn / 0x10, nn % 0x10);
    DivModUnique(nn, 0x10, nn / 0x10, nn % 0x10);
    ModOfMod(w, 0x100, 0x100);
    ModOfMod(w, 0x1000, 0x10);
    ModOfMod(w, 0x10, 0x10);
    DivModUnique(w % 0x1000, 0x100, x, nn);
    DivModUnique(w % 0x100, 0x10, nn / 0x10, nn % 0x10);
  }

  /** Assembling the decoded parts of any word gives back its low 16 bits. */
  lemma AssembleDecode(ins: Instruction)
    ensures Assemble(ins.OpCode(), ins.X(), ins.NN()) == ins.word % 0x1_0000
  {
    Recompose(ins);
  }
}
