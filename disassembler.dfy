/** A decoder for the 16-bit words pass 2 produces: the partner that shows
    the encoding loses nothing on valid lines. It reads the opcode prefix
    (the prefixes are prefix-free), then the register codes, the fixed
    filler bits and the 8-bit fields. */
module Disassembler {
  import opened Results
  import opened Bits
  import opened Decimal
  import opened Encoder

  /** What a line means: its mnemonic, its register operands in order and
      its numeric operand (address, branch target or immediate; 0 if none). */
  datatype Instr = Instr(mnemonic: string, registers: seq<string>, operand: int)

  /** The meaning of a valid line, read off the tokens and the label table. */
  function Meaning(token: seq<string>, labels: map<string, nat>): Instr
    requires ValidLine(token, labels)
  {
    MeaningAs(OpcodeOf(token[0]).value.shape, token, labels)
  }

  /** The meaning of a line read with a given operand layout. */
  function MeaningAs(shape: Shape, token: seq<string>, labels: map<string, nat>): Instr
    requires |token| > 0 && OperandsOk(shape, token, labels)
  {
    var m := token[0];
    match shape
    case Fixed => Instr(m, [], 0)
    case Memory => Instr(m, [token[1]], ParseInt(token[2]).value)
    case Branch => Instr(m, [], labels[token[1]])
    case Single(_) => Instr(m, [token[1]], 0)
    case Triple => Instr(m, [token[1], token[2], token[3]], 0)
    case Pair(_) => Instr(m, [token[1], token[2]], 0)
    case Immediate => Instr(m, [token[2]], ParseInt(token[1]).value)
  }

  /** The register a 3-bit code names in a slot. */
  function RegisterName(slot: Slot, code: string): Option<string>
  {
    match code
    case "000" => Some("ra")
    case "001" => Some("rb")
    case "010" => Some("rc")
    case "011" => Some("rd")
    case "100" => Some("re")
    case "101" => Some("sp")
    case "110" =>
      (match slot
       case Plain => None
       case Stack => Some("pc")
       case Port => Some("pc")
       case Alu => Some("zeros"))
    case "111" =>
      (match slot
       case Plain => None
       case Stack => Some("cr")
       case Port => Some("ir")
       case Alu => Some("ones"))
    case _ => None
  }

  /** RegisterName undoes RegisterCode, so no two registers of a slot share
      a code. */
  lemma RegisterInverse(slot: Slot, name: string)
    requires name in Registers(slot)
    ensures RegisterName(slot, RegisterCode(slot, name).value) == Some(name)
  {
  }

  lemma RegisterCodeInjective(slot: Slot, a: string, b: string)
    requires a in Registers(slot) && b in Registers(slot)
    requires RegisterCode(slot, a) == RegisterCode(slot, b)
    ensures a == b
  {
    RegisterInverse(slot, a);
    RegisterInverse(slot, b);
  }

  /** The mnemonic whose opcode prefix is exactly p. */
  function MnemonicOfPrefix(p: string): Option<string>
  {
    match p
    case "00000" => Some("load")
    case "00001" => Some("loada")
    case "00010" => Some("store")
    case "00011" => Some("storea")
    case "00101111" => Some("bra")
    case "00110000" => Some("braz")
    case "00110001" => Some("bran")
    case "00110010" => Some("brao")
    case "00110011" => Some("brac")
    case "00110111" => Some("call")
    case "0011101111111111" => Some("return")
    case "0011111111111111" => Some("halt")
    case "0100" => Some("push")
    case "0101" => Some("pop")
    case "0110" => Some("oport")
    case "0111" => Some("iport")
    case "1000" => Some("add")
    case "1001" => Some("sub")
    case "1010" => Some("and")
    case "1011" => Some("or")
    case "1100" => Some("xor")
    case "11010" => Some("shiftl")
    case "11011" => Some("shiftr")
    case "11100" => Some("rotl")
    case "11101" => Some("rotr")
    case "11110" => Some("move")
    case "11111" => Some("movei")
    case _ => None
  }

  /** The width of the opcode prefix of a word, read off its first bits:
      01.. and 10.. are four bits, as is 1100; 000.., 1101.. and 111.. are
      five; 0011 1... (return, halt) is sixteen, and the rest of 001.. eight. */
  function PrefixWidthOf(w: string): nat
    requires |w| >= 4
  {
    if w[0] != w[1] then 4
    else if w[0] == '1' then (if w[2] == '0' && w[3] == '0' then 4 else 5)
    else if w[2] == '0' then 5
    else if w[3] == '1' && |w| >= 5 && w[4] == '1' then 16
    else 8
  }

  /** The mnemonic of a 16-bit word. */
  function Lookup(w: string): Option<string>
    requires |w| == 16
  {
    MnemonicOfPrefix(w[..PrefixWidthOf(w)])
  }

  /** Each opcode prefix names its own mnemonic. */
  lemma PrefixSelf(m: string)
    ensures OpcodeOf(m).Some? ==> MnemonicOfPrefix(OpcodeOf(m).value.prefix) == Some(m)
  {
    match m
    case "load" =>
    case "loada" =>
    case "store" =>
    case "storea" =>
    case "bra" =>
    case "braz" =>
    case "bran" =>
    case "brao" =>
    case "brac" =>
    case "call" =>
    case "return" =>
    case "halt" =>
    case "push" =>
    case "pop" =>
    case "oport" =>
    case "iport" =>
    case "add" =>
    case "sub" =>
    case "and" =>
    case "or" =>
    case "xor" =>
    case "shiftl" =>
    case "shiftr" =>
    case "rotl" =>
    case "rotr" =>
    case "move" =>
    case "movei" =>
    case _ =>
  }

  /** Each opcode prefix is read as having its own width. */
  lemma PrefixWidthSelf(m: string)
    ensures OpcodeOf(m).Some? ==> PrefixWidthOf(OpcodeOf(m).value.prefix) == |OpcodeOf(m).value.prefix|
  {
    match m
    case "load" =>
    case "loada" =>
    case "store" =>
    case "storea" =>
    case "bra" =>
    case "braz" =>
    case "bran" =>
    case "brao" =>
    case "brac" =>
    case "call" =>
    case "return" =>
    case "halt" =>
    case "push" =>
    case "pop" =>
    case "oport" =>
    case "iport" =>
    case "add" =>
    case "sub" =>
    case "and" =>
    case "or" =>
    case "xor" =>
    case "shiftl" =>
    case "shiftr" =>
    case "rotl" =>
    case "rotr" =>
    case "move" =>
    case "movei" =>
    case _ =>
  }

  /** The width read off a word is the width read off the prefix it starts with. */
  lemma PrefixWidthOfWord(p: string, w: string)
    requires 4 <= |p| <= |w| && w[..|p|] == p && PrefixWidthOf(p) == |p|
    ensures PrefixWidthOf(w) == |p|
  {
    assert w[0] == p[0] && w[1] == p[1] && w[2] == p[2] && w[3] == p[3];
    if |p| >= 5 {
      assert w[4] == p[4];
    }
  }

  lemma LookupPrefix(m: string, w: string)
    requires OpcodeOf(m).Some? && |w| == 16
    requires w[..|OpcodeOf(m).value.prefix|] == OpcodeOf(m).value.prefix
    ensures Lookup(w) == Some(m)
  {
    PrefixSelf(m);
    PrefixWidthSelf(m);
    PrefixWidthOfWord(OpcodeOf(m).value.prefix, w);
  }

  /** The operands after the prefix, read by the layout. */
  function DecodeOperands(m: string, shape: Shape, rest: string): Option<Instr>
  {
    match shape
    case Fixed => if rest == [] then Some(Instr(m, [], 0)) else None
    case Memory =>
      if |rest| != 11 then None
      else
        var r :- RegisterName(Plain, rest[..3]);
        Some(Instr(m, [r], Value(rest[3..])))
    case Branch => if |rest| != 8 then None else Some(Instr(m, [], Value(rest)))
    case Single(slot) =>
      if |rest| != 12 || rest[3..] != "111111111" then None
      else
        var r :- RegisterName(slot, rest[..3]);
        Some(Instr(m, [r], 0))
    case Triple =>
      if |rest| != 12 || rest[6..9] != "111" then None
      else
        var r1 :- RegisterName(Alu, rest[..3]);
        var r2 :- RegisterName(Alu, rest[3..6]);
        var r3 :- RegisterName(Plain, rest[9..]);
        Some(Instr(m, [r1, r2, r3], 0))
    case Pair(slot) =>
      if |rest| != 11 || rest[3..8] != "11111" then None
      else
        var r1 :- RegisterName(slot, rest[..3]);
        var r2 :- RegisterName(Plain, rest[8..]);
        Some(Instr(m, [r1, r2], 0))
    case Immediate =>
      if |rest| != 11 then None
      else
        var r :- RegisterName(Plain, rest[8..]);
        Some(Instr(m, [r], SignedValue(rest[..8])))
  }

  /** Decodes one machine word; None for a word pass 2 never produces from a
      valid line. */
  function Disassemble(w: string): Option<Instr>
  {
    if |w| != 16 then None
    else
      match Lookup(w)
      case None => None
      case Some(m) =>
        match OpcodeOf(m)
        case None => None
        case Some(op) => DecodeOperands(m, op.shape, w[|op.prefix|..])
  }

  /** Decoding the word of a valid line gives back what the line means: the
      mnemonic, every register operand and the number (address, label
      address or immediate). */
  lemma DisassembleEncode(token: seq<string>, labels: map<string, nat>, line: nat)
    requires ValidLine(token, labels)
    ensures Encode(token, labels, line).Ok?
    ensures Disassemble(Encode(token, labels, line).value) == Some(Meaning(token, labels))
  {
    var op := OpcodeOf(token[0]).value;
    ValidLineWord(token, labels, line);
    var w := Encode(token, labels, line).value;
    assert w == EncodeOperands(op, token, labels, line).value;
    OperandsPrefix(op, token, labels, line);
    LookupPrefix(token[0], w);
    OperandsDecode(op, token, labels, line);
  }

  /** The word of a known instruction starts with its opcode prefix. */
  lemma OperandsPrefix(op: Opcode, token: seq<string>, labels: map<string, nat>, line: nat)
    requires EncodeOperands(op, token, labels, line).Ok?
    ensures var w := EncodeOperands(op, token, labels, line).value;
      |op.prefix| <= |w| && w[..|op.prefix|] == op.prefix
  {
  }

  /** The fields after the opcode prefix of the line's word decode to the
      line's meaning. */
  predicate DecodesBack(op: Opcode, token: seq<string>, labels: map<string, nat>, line: nat)
    requires |token| > 0 && OperandsOk(op.shape, token, labels)
  {
    var r := EncodeOperands(op, token, labels, line);
    && r.Ok? && |op.prefix| <= |r.value|
    && DecodeOperands(token[0], op.shape, r.value[|op.prefix|..]) == Some(MeaningAs(op.shape, token, labels))
  }

  lemma OperandsDecode(op: Opcode, token: seq<string>, labels: map<string, nat>, line: nat)
    requires |token| > 0 && |op.prefix| == PrefixWidth(op.shape) && IsBits(op.prefix)
    requires OperandsOk(op.shape, token, labels)
    requires |token| >= ArityOf(op.shape) && RegistersOk(op.shape, token)
    ensures DecodesBack(op, token, labels, line)
  {
    match op.shape
    case Fixed =>
    case Memory => DecodeMemory(op, token, labels, line);
    case Branch => DecodeBranch(op, token, labels, line);
    case Single(_) => DecodeSingle(op, token, labels, line);
    case Triple => DecodeTriple(op, token, labels, line);
    case Pair(_) => DecodePair(op, token, labels, line);
    case Immediate => DecodeImmediate(op, token, labels, line);
  }

  // Each layout in two steps: the word of the line is the prefix followed by
  // its fields, and those fields decode to the operands.

  lemma DecodeMemory(op: Opcode, token: seq<string>, labels: map<string, nat>, line: nat)
    requires op.shape == Memory && OperandsOk(Memory, token, labels) && token[1] in Registers(Plain)
    ensures DecodesBack(op, token, labels, line)
  {
    var n := ParseInt(token[2]).value;
    var a := Dec2Bin8(n, line);
    assert a.Ok? && |a.value| == 8 && Value(a.value) == n by {
      Dec2Bin8RoundTrip(n, line);
    }
    var f := Field(Plain, token[1], "");
    var r := EncodeOperands(op, token, labels, line);
    assert r == Ok(op.prefix + f + a.value);
    assert r.value[|op.prefix|..] == f + a.value;
    MemoryFields(token[0], token[1], a.value);
  }

  lemma MemoryFields(m: string, r: string, a: string)
    requires r in Registers(Plain) && |a| == 8
    ensures DecodeOperands(m, Memory, Field(Plain, r, "") + a) == Some(Instr(m, [r], Value(a)))
  {
    var f := Field(Plain, r, "");
    var rest := f + a;
    RegisterInverse(Plain, r);
    assert f == f[..3];
    assert rest[..3] == RegisterCode(Plain, r).value && rest[3..] == a;
  }

  lemma DecodeBranch(op: Opcode, token: seq<string>, labels: map<string, nat>, line: nat)
    requires op.shape == Branch && |token| > 0 && OperandsOk(Branch, token, labels)
    ensures DecodesBack(op, token, labels, line)
  {
    var a := Dec2Bin8(labels[token[1]], line);
    assert a.Ok? && |a.value| == 8 && Value(a.value) == labels[token[1]] by {
      Dec2Bin8RoundTrip(labels[token[1]], line);
    }
    var r := EncodeOperands(op, token, labels, line);
    assert r == Ok(op.prefix + a.value);
    assert r.value[|op.prefix|..] == a.value;
  }

  lemma DecodeSingle(op: Opcode, token: seq<string>, labels: map<string, nat>, line: nat)
    requires op.shape.Single? && OperandsOk(op.shape, token, labels) && token[1] in Registers(op.shape.slot)
    ensures DecodesBack(op, token, labels, line)
  {
    var slot := op.shape.slot;
    RegisterInverse(slot, token[1]);
    var f := Field(slot, token[1], "111111111");
    var r := EncodeOperands(op, token, labels, line);
    assert r == Ok(op.prefix + f);
    assert r.value[|op.prefix|..] == f;
  }

  lemma DecodeTriple(op: Opcode, token: seq<string>, labels: map<string, nat>, line: nat)
    requires op.shape == Triple && OperandsOk(Triple, token, labels)
    requires token[1] in Registers(Alu) && token[2] in Registers(Alu) && token[3] in Registers(Plain)
    ensures DecodesBack(op, token, labels, line)
  {
    var f1, f2, f3 := Field(Alu, token[1], ""), Field(Alu, token[2], "111"), Field(Plain, token[3], "");
    var r := EncodeOperands(op, token, labels, line);
    assert r == Ok(op.prefix + f1 + f2 + f3);
    assert r.value[|op.prefix|..] == f1 + f2 + f3;
    TripleFields(token[0], token[1], token[2], token[3]);
  }

  lemma TripleFields(m: string, r1: string, r2: string, r3: string)
    requires r1 in Registers(Alu) && r2 in Registers(Alu) && r3 in Registers(Plain)
    ensures DecodeOperands(m, Triple, Field(Alu, r1, "") + Field(Alu, r2, "111") + Field(Plain, r3, ""))
      == Some(Instr(m, [r1, r2, r3], 0))
  {
    var f1, f2, f3 := Field(Alu, r1, ""), Field(Alu, r2, "111"), Field(Plain, r3, "");
    var rest := f1 + f2 + f3;
    RegisterInverse(Alu, r1);
    RegisterInverse(Alu, r2);
    RegisterInverse(Plain, r3);
    assert f1 == f1[..3] && f3 == f3[..3];
    assert rest[..3] == RegisterCode(Alu, r1).value;
    assert rest[3..6] == RegisterCode(Alu, r2).value;
    assert rest[6..9] == "111";
    assert rest[9..] == RegisterCode(Plain, r3).value;
  }

  lemma DecodePair(op: Opcode, token: seq<string>, labels: map<string, nat>, line: nat)
    requires op.shape.Pair? && OperandsOk(op.shape, token, labels)
    requires token[1] in Registers(op.shape.src) && token[2] in Registers(Plain)
    ensures DecodesBack(op, token, labels, line)
  {
    var slot := op.shape.src;
    var f1, f2 := Field(slot, token[1], "11111"), Field(Plain, token[2], "");
    var r := EncodeOperands(op, token, labels, line);
    assert r == Ok(op.prefix + f1 + f2);
    assert r.value[|op.prefix|..] == f1 + f2;
    PairFields(token[0], slot, token[1], token[2]);
  }

  lemma PairFields(m: string, slot: Slot, r1: string, r2: string)
    requires r1 in Registers(slot) && r2 in Registers(Plain)
    ensures DecodeOperands(m, Pair(slot), Field(slot, r1, "11111") + Field(Plain, r2, ""))
      == Some(Instr(m, [r1, r2], 0))
  {
    var f1, f2 := Field(slot, r1, "11111"), Field(Plain, r2, "");
    var rest := f1 + f2;
    RegisterInverse(slot, r1);
    RegisterInverse(Plain, r2);
    assert f2 == f2[..3];
    assert rest[..3] == RegisterCode(slot, r1).value;
    assert rest[3..8] == "11111";
    assert rest[8..] == RegisterCode(Plain, r2).value;
  }

  lemma DecodeImmediate(op: Opcode, token: seq<string>, labels: map<string, nat>, line: nat)
    requires op.shape == Immediate && OperandsOk(Immediate, token, labels) && token[2] in Registers(Plain)
    ensures DecodesBack(op, token, labels, line)
  {
    var n := ParseInt(token[1]).value;
    var c := Dec2Comp8(n, line);
    assert c.Ok? && |c.value| == 8 && SignedValue(c.value) == n by {
      Dec2Comp8RoundTrip(n, line);
    }
    var f := Field(Plain, token[2], "");
    var r := EncodeOperands(op, token, labels, line);
    assert r == Ok(op.prefix + c.value + f);
    assert r.value[|op.prefix|..] == c.value + f;
    ImmediateFields(token[0], c.value, token[2]);
  }

  lemma ImmediateFields(m: string, imm: string, r: string)
    requires |imm| == 8 && r in Registers(Plain)
    ensures DecodeOperands(m, Immediate, imm + Field(Plain, r, "")) == Some(Instr(m, [r], SignedValue(imm)))
  {
    var f := Field(Plain, r, "");
    var rest := imm + f;
    RegisterInverse(Plain, r);
    assert f == f[..3];
    assert rest[..8] == imm;
    assert rest[8..] == RegisterCode(Plain, r).value;
  }
}
