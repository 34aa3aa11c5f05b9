/** pass2: encodes every line of the instruction stream as a word of '0'
    and '1' characters followed by ';'. The first token selects an opcode
    prefix and an operand layout; register operands become 3-bit codes
    (some with fixed '1' filler after them), addresses and branch targets
    go through dec2bin8, and the movei immediate through dec2comp8. */
module Encoder {
  import opened Results
  import opened Bits
  import opened Decimal
  import opened Labels

  // ---------------------------------------------------------------------
  // Register tables

  /** The four register tables of pass 2, by operand slot. */
  datatype Slot =
    | Plain  // load/store register and every destination: ra..sp
    | Stack  // push and pop: ra..sp, pc, cr
    | Port   // oport and iport, and the source of move: ra..sp, pc, ir
    | Alu    // sources of add..xor and of shiftl..rotr: ra..sp, zeros, ones

  /** The 3-bit code of a register name in a slot, if that slot lists it. */
  function RegisterCode(slot: Slot, name: string): (r: Option<string>)
    ensures r.Some? <==> name in Registers(slot)
    ensures r.Some? ==> |r.value| == 3 && IsBits(r.value)
  {
    match name
    case "ra" => Some("000")
    case "rb" => Some("001")
    case "rc" => Some("010")
    case "rd" => Some("011")
    case "re" => Some("100")
    case "sp" => Some("101")
    case "pc" => if slot == Stack || slot == Port then Some("110") else None
    case "cr" => if slot == Stack then Some("111") else None
    case "ir" => if slot == Port then Some("111") else None
    case "zeros" => if slot == Alu then Some("110") else None
    case "ones" => if slot == Alu then Some("111") else None
    case _ => None
  }

  /** The names each slot accepts, as sets. */
  function Registers(slot: Slot): set<string>
  {
    var general := {"ra", "rb", "rc", "rd", "re", "sp"};
    match slot
    case Plain => general
    case Stack => general + {"pc", "cr"}
    case Port => general + {"pc", "ir"}
    case Alu => general + {"zeros", "ones"}
  }

  /** A register operand with the filler bits that follow it. An unlisted
      name matches no case of the original, so its code and filler are both
      left out of the word. */
  function Field(slot: Slot, name: string, filler: string): (f: string)
    ensures |f| == if name in Registers(slot) then 3 + |filler| else 0
    ensures name in Registers(slot) ==> f[..3] == RegisterCode(slot, name).value && f[3..] == filler
    ensures IsBits(filler) ==> IsBits(f)
  {
    match RegisterCode(slot, name)
    case Some(code) =>
      if IsBits(filler) then IsBitsAppend(code, filler); code + filler else code + filler
    case None => ""
  }

  // ---------------------------------------------------------------------
  // Opcode table

  /** The operand layouts of the instruction set. */
  datatype Shape =
    | Memory            // load, loada, store, storea: register(3) address(8)
    | Branch            // bra, braz, bran, brao, brac, call: address(8) of a label
    | Fixed             // return, halt: the prefix is the whole word
    | Single(slot: Slot) // push, pop, oport, iport: register(3) then nine 1s
    | Triple            // add, sub, and, or, xor: source(3) source(3) 111 destination(3)
    | Pair(src: Slot)   // shiftl, shiftr, rotl, rotr, move: source(3) 11111 destination(3)
    | Immediate         // movei: immediate(8) destination(3)

  datatype Opcode = Opcode(prefix: string, shape: Shape)

  function OpcodeOf(mnemonic: string): (r: Option<Opcode>)
    ensures r.Some? ==> |r.value.prefix| == PrefixWidth(r.value.shape) && IsBits(r.value.prefix)
  {
    match mnemonic
    case "load" => Some(Opcode("00000", Memory))
    case "loada" => Some(Opcode("00001", Memory))
    case "store" => Some(Opcode("00010", Memory))
    case "storea" => Some(Opcode("00011", Memory))
    case "bra" => Some(Opcode("00101111", Branch))
    case "braz" => Some(Opcode("00110000", Branch))
    case "bran" => Some(Opcode("00110001", Branch))
    case "brao" => Some(Opcode("00110010", Branch))
    case "brac" => Some(Opcode("00110011", Branch))
    case "call" => Some(Opcode("00110111", Branch))
    case "return" => Some(Opcode("0011101111111111", Fixed))
    case "halt" => Some(Opcode("0011111111111111", Fixed))
    case "push" => Some(Opcode("0100", Single(Stack)))
    case "pop" => Some(Opcode("0101", Single(Stack)))
    case "oport" => Some(Opcode("0110", Single(Port)))
    case "iport" => Some(Opcode("0111", Single(Port)))
    case "add" => Some(Opcode("1000", Triple))
    case "sub" => Some(Opcode("1001", Triple))
    case "and" => Some(Opcode("1010", Triple))
    case "or" => Some(Opcode("1011", Triple))
    case "xor" => Some(Opcode("1100", Triple))
    case "shiftl" => Some(Opcode("11010", Pair(Alu)))
    case "shiftr" => Some(Opcode("11011", Pair(Alu)))
    case "rotl" => Some(Opcode("11100", Pair(Alu)))
    case "rotr" => Some(Opcode("11101", Pair(Alu)))
    case "move" => Some(Opcode("11110", Pair(Port)))
    case "movei" => Some(Opcode("11111", Immediate))
    case _ => None
  }

  /** The width of the prefix of each layout; with the operand fields every
      layout adds up to 16 bits. */
  function PrefixWidth(shape: Shape): nat
  {
    match shape
    case Memory => 5
    case Branch => 8
    case Fixed => 16
    case Single(_) => 4
    case Triple => 4
    case Pair(_) => 5
    case Immediate => 5
  }

  // ---------------------------------------------------------------------
  // One line

  /** int(token): a decimal literal, or the ValueError the original raises. */
  function Number(token: string, line: nat): Result<int>
  {
    match ParseInt(token)
    case Some(n) => Ok(n)
    case None => Err(NotANumber(line))
  }

  /** The errors one line can stop pass 2 with, given its mnemonic: an empty
      line or too few operands is a missing operand; only the memory and movei
      layouts read a literal, so only they can meet a bad literal; a negative
      address belongs to the memory layout, an immediate below -128 to movei
      and an undefined label (named by the line's second token) to a branch. */
  predicate LineError(e: Error, token: seq<string>, line: nat)
  {
    if |token| == 0 then e == MissingOperand(line)
    else OpcodeOf(token[0]).Some? && ShapeError(e, OpcodeOf(token[0]).value.shape, token, line)
  }

  predicate ShapeError(e: Error, shape: Shape, token: seq<string>, line: nat)
  {
    (e == MissingOperand(line) && |token| < ArityOf(shape))
    || match shape
       case Memory => e == NotANumber(line) || e == NegativeAddress(line)
       case Branch => |token| >= 2 && e == UndefinedLabel(token[1])
       case Immediate => e == NotANumber(line) || e == InvalidImmediate(line)
       case _ => false
  }

  /** The body of pass 2's loop for one line (without the ';'). An unknown
      mnemonic gives the empty word; a missing operand, a bad literal, a
      negative address, an immediate below -128 and an unknown label are
      errors. */
  function Encode(token: seq<string>, labels: map<string, nat>, line: nat): (r: Result<string>)
    ensures |token| > 0 && OpcodeOf(token[0]).None? ==> r.Ok?
    ensures |token| > 0 && OpcodeOf(token[0]).Some? && |token| < ArityOf(OpcodeOf(token[0]).value.shape) ==> r.Err?
    ensures r.Err? ==> LineError(r.error, token, line)
  {
    if |token| == 0 then Err(MissingOperand(line))
    else
      match OpcodeOf(token[0])
      case None => Ok("")
      case Some(op) => EncodeOperands(op, token, labels, line)
  }

  function EncodeOperands(op: Opcode, token: seq<string>, labels: map<string, nat>, line: nat): (r: Result<string>)
    ensures 0 < |token| < ArityOf(op.shape) ==> r.Err?
    ensures r.Err? ==> ShapeError(r.error, op.shape, token, line)
  {
    var p := op.prefix;
    match op.shape
    case Fixed => Ok(p)
    case Memory =>
      if |token| < 3 then Err(MissingOperand(line))
      else
        var n :- Number(token[2], line);
        var address :- Dec2Bin8(n, line);
        Ok(p + Field(Plain, token[1], "") + address)
    case Branch =>
      if |token| < 2 then Err(MissingOperand(line))
      else if token[1] !in labels then Err(UndefinedLabel(token[1]))
      else
        // an address from the label table is never negative, so dec2bin8
        // cannot fail here
        Ok(p + Dec2Bin8(labels[token[1]], line).value)
    case Single(slot) =>
      if |token| < 2 then Err(MissingOperand(line))
      else Ok(p + Field(slot, token[1], "111111111"))
    case Triple =>
      if |token| < 4 then Err(MissingOperand(line))
      else Ok(p + Field(Alu, token[1], "") + Field(Alu, token[2], "111") + Field(Plain, token[3], ""))
    case Pair(slot) =>
      if |token| < 3 then Err(MissingOperand(line))
      else Ok(p + Field(slot, token[1], "11111") + Field(Plain, token[2], ""))
    case Immediate =>
      if |token| < 2 then Err(MissingOperand(line))
      else
        var n :- Number(token[1], line);
        var imm :- Dec2Comp8(n, line);
        if |token| < 3 then Err(MissingOperand(line))
        else Ok(p + imm + Field(Plain, token[2], ""))
  }

  /** The other direction: a bad literal, a negative address and an
      immediate below -128 each stop the line with their own error. */
  lemma EncodeErrors(token: seq<string>, labels: map<string, nat>, line: nat)
    requires |token| > 0 && OpcodeOf(token[0]).Some?
    ensures OpcodeOf(token[0]).value.shape == Memory && |token| >= 3 ==>
      (ParseInt(token[2]).None? ==> Encode(token, labels, line) == Err(NotANumber(line)))
      && (ParseInt(token[2]).Some? && ParseInt(token[2]).value < 0 ==> Encode(token, labels, line) == Err(NegativeAddress(line)))
    ensures OpcodeOf(token[0]).value.shape == Immediate && |token| >= 2 ==>
      (ParseInt(token[1]).None? ==> Encode(token, labels, line) == Err(NotANumber(line)))
      && (ParseInt(token[1]).Some? && ParseInt(token[1]).value < -128 ==> Encode(token, labels, line) == Err(InvalidImmediate(line)))
  {
  }

  /** Every word pass 2 builds is a string of 0/1, whatever the operands. */
  lemma EncodeBits(token: seq<string>, labels: map<string, nat>, line: nat)
    ensures Encode(token, labels, line).Ok? ==> IsBits(Encode(token, labels, line).value)
  {
    if |token| > 0 && OpcodeOf(token[0]).Some? {
      OperandsBits(OpcodeOf(token[0]).value, token, labels, line);
    }
  }

  lemma OperandsBits(op: Opcode, token: seq<string>, labels: map<string, nat>, line: nat)
    requires IsBits(op.prefix)
    ensures EncodeOperands(op, token, labels, line).Ok? ==> IsBits(EncodeOperands(op, token, labels, line).value)
  {
    var r := EncodeOperands(op, token, labels, line);
    if r.Ok? {
      var p := op.prefix;
      match op.shape
      case Fixed =>
      case Memory =>
        var a := Dec2Bin8(Number(token[2], line).value, line).value;
        var f := Field(Plain, token[1], "");
        assert r.value == p + f + a;
        IsBitsAppend(p, f);
        IsBitsAppend(p + f, a);
      case Branch =>
        var a := Dec2Bin8(labels[token[1]], line).value;
        assert r.value == p + a;
        IsBitsAppend(p, a);
      case Single(slot) =>
        var f := Field(slot, token[1], "111111111");
        assert r.value == p + f;
        IsBitsAppend(p, f);
      case Triple =>
        var f1, f2, f3 := Field(Alu, token[1], ""), Field(Alu, token[2], "111"), Field(Plain, token[3], "");
        assert r.value == p + f1 + f2 + f3;
        IsBitsAppend(p, f1);
        IsBitsAppend(p + f1, f2);
        IsBitsAppend(p + f1 + f2, f3);
      case Pair(slot) =>
        var f1, f2 := Field(slot, token[1], "11111"), Field(Plain, token[2], "");
        assert r.value == p + f1 + f2;
        IsBitsAppend(p, f1);
        IsBitsAppend(p + f1, f2);
      case Immediate =>
        var imm := Dec2Comp8(Number(token[1], line).value, line).value;
        var f := Field(Plain, token[2], "");
        assert r.value == p + imm + f;
        IsBitsAppend(p, imm);
        IsBitsAppend(p + imm, f);
    }
  }

  // ---------------------------------------------------------------------
  // pass2

  /** Line i of the stream encodes without error. */
  predicate LineOk(stream: seq<seq<string>>, labels: map<string, nat>, i: nat)
    requires i < |stream|
  {
    Encode(stream[i], labels, i).Ok?
  }

  /** Line i is the first line of the stream that fails, with error e. */
  predicate FirstFailure(stream: seq<seq<string>>, labels: map<string, nat>, i: nat, e: Error)
  {
    i < |stream| && Encode(stream[i], labels, i) == Err(e)
    && forall j :: 0 <= j < i ==> LineOk(stream, labels, j)
  }

  method Pass2(stream: seq<seq<string>>, labels: map<string, nat>) returns (r: Result<seq<string>>)
    ensures r.Ok? <==> forall i :: 0 <= i < |stream| ==> LineOk(stream, labels, i)
    ensures r.Ok? ==> |r.value| == |stream|
    ensures r.Ok? ==> forall i :: 0 <= i < |stream| ==>
      Encode(stream[i], labels, i).Ok? && r.value[i] == Encode(stream[i], labels, i).value + ";"
    ensures r.Err? ==> exists i: nat :: FirstFailure(stream, labels, i, r.error)
    ensures r.Ok? ==> forall i :: 0 <= i < |stream| ==> |r.value[i]| > 0 && r.value[i][|r.value[i]| - 1] == ';'
  {
    var machineInstructions: seq<string> := [];
    var lineNumber := 0;
    while lineNumber < |stream|
      invariant 0 <= lineNumber <= |stream|
      invariant |machineInstructions| == lineNumber
      invariant forall j :: 0 <= j < lineNumber ==>
        Encode(stream[j], labels, j).Ok? && machineInstructions[j] == Encode(stream[j], labels, j).value + ";"
    {
      var machineInstr := Encode(stream[lineNumber], labels, lineNumber);
      if machineInstr.Err? {
        assert FirstFailure(stream, labels, lineNumber, machineInstr.error);
        assert !LineOk(stream, labels, lineNumber);
        return Err(machineInstr.error);
      }
      machineInstructions := machineInstructions + [machineInstr.value + ";"];
      lineNumber := lineNumber + 1;
    }
    return Ok(machineInstructions);
  }

  // ---------------------------------------------------------------------
  // Properties of one line

  /** The line has the operands its layout reads, each literal parses, every
      address is 0..255, the immediate is -127..127 and every branch target
      is a defined label with an 8-bit address. */
  predicate OperandsOk(shape: Shape, token: seq<string>, labels: map<string, nat>)
  {
    match shape
    case Fixed => true
    case Memory =>
      |token| >= 3 && ParseInt(token[2]).Some? && 0 <= ParseInt(token[2]).value <= 255
    case Branch => |token| >= 2 && token[1] in labels && labels[token[1]] <= 255
    case Single(_) => |token| >= 2
    case Triple => |token| >= 4
    case Pair(_) => |token| >= 3
    case Immediate =>
      |token| >= 3 && ParseInt(token[1]).Some? && -127 <= ParseInt(token[1]).value <= 127
  }

  /** Every register operand is in the set of its slot. */
  predicate RegistersOk(shape: Shape, token: seq<string>)
    requires |token| >= ArityOf(shape)
  {
    match shape
    case Fixed => true
    case Branch => true
    case Memory => token[1] in Registers(Plain)
    case Single(slot) => token[1] in Registers(slot)
    case Triple => token[1] in Registers(Alu) && token[2] in Registers(Alu) && token[3] in Registers(Plain)
    case Pair(slot) => token[1] in Registers(slot) && token[2] in Registers(Plain)
    case Immediate => token[2] in Registers(Plain)
  }

  /** The number of tokens, mnemonic included, that a layout reads. */
  function ArityOf(shape: Shape): nat
  {
    match shape
    case Fixed => 1
    case Branch => 2
    case Single(_) => 2
    case Memory => 3
    case Pair(_) => 3
    case Immediate => 3
    case Triple => 4
  }

  /** A line pass 2 turns into a full machine word. */
  predicate ValidLine(token: seq<string>, labels: map<string, nat>)
  {
    && |token| > 0
    && OpcodeOf(token[0]).Some?
    && OperandsOk(OpcodeOf(token[0]).value.shape, token, labels)
    && |token| >= ArityOf(OpcodeOf(token[0]).value.shape)
    && RegistersOk(OpcodeOf(token[0]).value.shape, token)
  }

  /** With its operands in range a known instruction encodes to a string of
      0s and 1s, and that string is a full 16-bit word exactly when every
      register operand is in its slot's set; otherwise the fields of the
      unlisted registers are missing and the word is shorter. */
  lemma EncodeWidth(token: seq<string>, labels: map<string, nat>, line: nat)
    requires |token| > 0 && OpcodeOf(token[0]).Some?
    requires OperandsOk(OpcodeOf(token[0]).value.shape, token, labels)
    ensures |token| >= ArityOf(OpcodeOf(token[0]).value.shape)
    ensures Encode(token, labels, line).Ok?
    ensures IsBits(Encode(token, labels, line).value)
    ensures |Encode(token, labels, line).value| == 16 <==> RegistersOk(OpcodeOf(token[0]).value.shape, token)
  {
    OperandsWidth(OpcodeOf(token[0]).value, token, labels, line);
  }

  /** EncodeWidth for any opcode of the right prefix width. */
  lemma OperandsWidth(op: Opcode, token: seq<string>, labels: map<string, nat>, line: nat)
    requires |token| > 0 && |op.prefix| == PrefixWidth(op.shape) && IsBits(op.prefix)
    requires OperandsOk(op.shape, token, labels)
    ensures |token| >= ArityOf(op.shape)
    ensures EncodeOperands(op, token, labels, line).Ok?
    ensures IsBits(EncodeOperands(op, token, labels, line).value)
    ensures |EncodeOperands(op, token, labels, line).value| == 16 <==> RegistersOk(op.shape, token)
  {
    var p := op.prefix;
    match op.shape
    case Fixed =>
    case Memory =>
      var n := ParseInt(token[2]).value;
      var a := Dec2Bin8(n, line);
      assert a.Ok? && |a.value| == 8 && IsBits(a.value) by {
        Dec2Bin8RoundTrip(n, line);
      }
      var f := Field(Plain, token[1], "");
      IsBitsAppend(p, f);
      IsBitsAppend(p + f, a.value);
    case Branch =>
      var a := Dec2Bin8(labels[token[1]], line);
      assert a.Ok? && |a.value| == 8 && IsBits(a.value) by {
        Dec2Bin8RoundTrip(labels[token[1]], line);
      }
      IsBitsAppend(p, a.value);
    case Single(slot) =>
      IsBitsAppend(p, Field(slot, token[1], "111111111"));
    case Triple =>
      var f1, f2, f3 := Field(Alu, token[1], ""), Field(Alu, token[2], "111"), Field(Plain, token[3], "");
      IsBitsAppend(p, f1);
      IsBitsAppend(p + f1, f2);
      IsBitsAppend(p + f1 + f2, f3);
    case Pair(slot) =>
      var f1, f2 := Field(slot, token[1], "11111"), Field(Plain, token[2], "");
      IsBitsAppend(p, f1);
      IsBitsAppend(p + f1, f2);
    case Immediate =>
      var n := ParseInt(token[1]).value;
      var c := Dec2Comp8(n, line);
      assert c.Ok? && |c.value| == 8 && IsBits(c.value) by {
        Dec2Comp8RoundTrip(n, line);
      }
      IsBitsAppend(p, c.value);
      IsBitsAppend(p + c.value, Field(Plain, token[2], ""));
  }

  /** A valid line encodes to exactly 16 characters of 0 and 1. */
  lemma ValidLineWord(token: seq<string>, labels: map<string, nat>, line: nat)
    requires ValidLine(token, labels)
    ensures Encode(token, labels, line).Ok?
    ensures |Encode(token, labels, line).value| == 16 && IsBits(Encode(token, labels, line).value)
  {
    EncodeWidth(token, labels, line);
  }

  /** The words pass 2 returns: every valid line gives 16 characters of 0
      and 1 followed by ';'. */
  lemma ValidProgramWords(stream: seq<seq<string>>, labels: map<string, nat>, words: seq<string>)
    requires |words| == |stream|
    requires forall i :: 0 <= i < |stream| ==>
      Encode(stream[i], labels, i).Ok? && words[i] == Encode(stream[i], labels, i).value + ";"
    ensures forall i :: 0 <= i < |stream| && ValidLine(stream[i], labels) ==>
      |words[i]| == 17 && IsBits(words[i][..16]) && words[i][16] == ';'
  {
    forall i | 0 <= i < |stream| && ValidLine(stream[i], labels)
      ensures |words[i]| == 17 && IsBits(words[i][..16]) && words[i][16] == ';'
    {
      ValidLineWord(stream[i], labels, i);
      assert words[i][..16] == Encode(stream[i], labels, i).value;
    }
  }

  /** return and halt ignore their operands and always give their fixed words. */
  lemma EncodeFixed(token: seq<string>, labels: map<string, nat>, line: nat)
    requires |token| > 0 && (token[0] == "return" || token[0] == "halt")
    ensures token[0] == "return" ==> Encode(token, labels, line) == Ok("0011101111111111")
    ensures token[0] == "halt" ==> Encode(token, labels, line) == Ok("0011111111111111")
  {
  }

  /** An unknown mnemonic gives the empty word, so pass 2 emits just ";". */
  lemma EncodeUnknown(token: seq<string>, labels: map<string, nat>, line: nat)
    requires |token| > 0 && OpcodeOf(token[0]).None?
    ensures Encode(token, labels, line) == Ok("")
  {
  }

  /** A branch or call is its 8-bit prefix followed by dec2bin8 of the label's
      address, and it is an error to branch to a label that is not defined. */
  lemma EncodeBranch(token: seq<string>, labels: map<string, nat>, line: nat)
    requires |token| >= 2 && OpcodeOf(token[0]).Some? && OpcodeOf(token[0]).value.shape == Branch
    ensures |OpcodeOf(token[0]).value.prefix| == 8
    ensures token[1] in labels ==>
      Encode(token, labels, line) == Ok(OpcodeOf(token[0]).value.prefix + Dec2Bin8(labels[token[1]], line).value)
    ensures token[1] !in labels ==> Encode(token, labels, line) == Err(UndefinedLabel(token[1]))
  {
  }

  /** A label bound to 256 (one declared after the 256th instruction) gives a
      24-character branch word, because dec2bin8 does not check its bound. */
  lemma BranchPast255(line: nat)
    ensures |Encode(["bra", "x"], map["x" := 256], line).value| == 24
  {
    Dec2Bin8At256(line);
  }

  /** After pass 1, a branch in the stream to the label declared by line k of
      the token lines jumps to the number of instructions before line k. */
  lemma BranchTarget(tokens: seq<seq<string>>, res: Resolved, i: nat, k: nat)
    requires Resolves(tokens, res)
    requires k < |tokens| && IsLabelLine(tokens[k])
    requires i < |res.stream| && |res.stream[i]| >= 2 && res.stream[i][1] == LabelName(tokens[k])
    requires OpcodeOf(res.stream[i][0]).Some? && OpcodeOf(res.stream[i][0]).value.shape == Branch
    ensures Encode(res.stream[i], res.labels, i)
      == Ok(OpcodeOf(res.stream[i][0]).value.prefix + Dec2Bin8(Address(tokens, k), i).value)
  {
    EncodeBranch(res.stream[i], res.labels, i);
  }
}
