# Two-pass assembler for a 16-bit CPU, modelled in Dafny

`Project/assembler.py` turns an assembly program into the binary words of
an Altera/Intel memory initialisation file for a small 16-bit CPU. It works
in three stages:

- `tokenize` strips each source line, cuts it at the first `#`, drops it
  when nothing is left, splits it on white space and lower-cases the tokens.
- `pass1` binds every label (a line whose first token ends in `:`) to the
  number of instruction lines before it. It stops on a label declared twice,
  and returns the label-free instruction stream with the label table.
- `pass2` encodes each instruction line as a 16-character string of `0` and
  `1` followed by `;`. The word is an opcode prefix (4, 5 or 8 bits, or a
  whole 16-bit constant for `return` and `halt`), then 3-bit register codes
  with fixed `1` filler, then 8-bit fields. Addresses and branch targets go
  through `dec2bin8` (unsigned) and the `movei` immediate through `dec2comp8`
  (two's complement).

The model follows that structure, one module per stage:

- `Results` holds `Option`, `Result` and the `Error` values that stand for
  the ways the assembler stops.
- `Bits` holds `dec2bin8` and `dec2comp8` as functions, with Python's
  `bit_length`, `format(d, 'b')` and slice `s[0:k]`, which clamps and can
  take a negative `k`. It also holds `Value` and `SignedValue`, which read a
  bit string back as a number.
- `Decimal` holds `int()` on the decimal literals the assembler accepts.
- `Lexer` holds `tokenize`, as the method `Tokenize` with the loops of the
  original, proved against the function `TokenLines`.
- `Labels` holds `pass1`, as the method `Pass1`, proved against
  `Instructions`, `Address` and `DeclaredBefore`.
- `Encoder` holds the register and opcode tables, `Encode` (the body of the
  pass 2 loop for one line) and the method `Pass2`.
- `Disassembler` holds a decoder for the machine words. `assembler.py` has
  no disassembler: this is a reference decoder, written only as the partner
  of the encoder. Decoding the word of a valid line gives back its mnemonic,
  its registers and its number. Its rows below cite the encoding tables the
  decoder inverts.

The model keeps the behaviour of the code, quirks included:

- Neither encoder checks an upper bound. `dec2bin8(256)` is 16 characters
  long, `dec2comp8(-128)` is 9 characters long, and `dec2comp8` of
  128..255 gives the unsigned pattern.
- Nothing checks the program's size. A label declared after the 256th
  instruction is bound to 256 or more, and a branch to it gives a word of
  24 characters. A program of at most 255 instructions keeps every branch
  target in range.
- An unknown mnemonic gives an empty word, so pass 2 emits just `;`.
- An unlisted register name matches no case of its table, so its code and
  its filler are left out of the word.
- Only the first token decides whether a line is a label. The rest of a
  label line is discarded, although the header comment (line 14) asks for
  a label to stand alone. The model follows the code.

Where the original ends the process, the model returns an error:

| original | model |
|---|---|
| `exit()` on a duplicate label | `DuplicateLabel` |
| `exit()` on a negative address | `NegativeAddress` |
| `IndexError` on a missing operand | `MissingOperand` |
| `ValueError` from `int()` | `NotANumber` |
| `KeyError` on an undefined label | `UndefinedLabel` |

## Model

| member | source | states |
|---|---|---|
| `Bits.Dec2Bin8` | Project/assembler.py:88-99 | The address field fails exactly when d is negative, and the error carries the line number; on success it is a string of 0/1. |
| `Bits.Dec2Bin8RoundTrip` | Project/assembler.py:88-97 | For 0 ≤ d ≤ 255 the field is exactly 8 characters of 0/1 whose binary value is d. |
| `Bits.Dec2Bin8Width` | Project/assembler.py:89-94 | For every d ≥ 0 the field reads back as d. Its width is 8 below 256, 16 for 256..65535, and the bit length of d beyond that. |
| `Bits.Dec2Bin8Unique` | Project/assembler.py:88-97 | For 0 ≤ d ≤ 255 the field is the only 8-character bit string whose value is d. |
| `Bits.Dec2Bin8At256` | Project/assembler.py:89-92 | The missing upper-bound check: `dec2bin8(256)` is `0000000100000000`. |
| `Bits.BinaryCorrect` | Project/assembler.py:71-73 | `format(d, 'b')` is a bit string with value d; for d > 0 it has `bit_length` characters and starts with 1, and 0 gives `"0"`. |
| `Bits.BitLengthBelow` | Project/assembler.py:71 | d < 2^n exactly when `d.bit_length()` ≤ n. |
| `Bits.Dec2Comp8` | Project/assembler.py:68-85 | The immediate field is produced for every d ≥ -128 and fails only below -128; on success it is a string of 0/1. |
| `Bits.Dec2Comp8RoundTrip` | Project/assembler.py:68-80 | For -127 ≤ d ≤ 127 the field is 8 characters of 0/1 whose two's-complement value is d. Zero gives `00000000`, d ≥ 0 starts with 0 and d < 0 starts with 1. |
| `Bits.Dec2Comp8AtMinus128` | Project/assembler.py:74-78 | `dec2comp8(-128)` is the 9-character `100000000`, because `dt` is 0 and `format(0, 'b')` is `"0"`. |
| `Bits.Dec2Comp8Unsigned` | Project/assembler.py:70-73 | For 128..255 the immediate field equals the unsigned address field, and its two's-complement value is d - 256. |
| `Decimal.ParseInt` | Project/assembler.py:177 | `int(token)` succeeds exactly on ASCII digits with an optional leading `-`; a `-` literal is ≤ 0 and any other literal ≥ 0. |
| `Decimal.ParseShow` | Project/assembler.py:487 | Every integer written in decimal is read back by `int()` as itself. |
| `Decimal.LeadingZeros` | Project/assembler.py:177 | Leading zeros do not change what `int()` reads: `int("007")` is 7. |
| `Lexer.TrimLeft` | Project/assembler.py:116 | `lstrip` drops only white space and leaves a suffix that is empty or starts with a visible character. |
| `Lexer.TrimRight` | Project/assembler.py:116 | `rstrip` drops only white space and leaves a prefix that is empty or ends with a visible character. |
| `Lexer.CutComment` | Project/assembler.py:117-122 | The character loop keeps exactly the characters before the first `#`. |
| `Lexer.LowerWords` | Project/assembler.py:131-133 | The lowering loop keeps the number of words and lower-cases each one in place. |
| `Lexer.Tokenize` | Project/assembler.py:106-137 | The result is `TokenLines(lines)`, has no more lists than there are lines, and every list is a non-empty list of non-empty tokens without white space, `#` or upper-case letters. |
| `Lexer.TokenLinesAppend` | Project/assembler.py:115-135 | Lines are handled independently and in order: the tokens of `a + b` are the tokens of `a` followed by those of `b`. |
| `Lexer.TokenLinesOfLine` | Project/assembler.py:124-135 | A line contributes nothing exactly when it is blank or holds only a comment; otherwise it contributes its one lower-cased word list. |
| `Lexer.DroppedIffBlank` | Project/assembler.py:116-126 | What is left after stripping and cutting the comment is empty exactly when every visible character is a `#` or comes after one. |
| `Lexer.TokenLinesShape` | Project/assembler.py:115-135 | The token lines are at most as many as the source lines, and each is a well-formed token line. |
| `Lexer.LineWordsShape` | Project/assembler.py:128-133 | A line that is not dropped splits and lowers into a non-empty list of well-formed tokens. |
| `Lexer.TakeWord` | Project/assembler.py:129 | A piece of `split()` is the longest run of visible characters at its start: it ends at white space or at the end of the string. |
| `Lexer.SplitShape` | Project/assembler.py:129 | Splitting a string without `#` gives only non-empty pieces without white space or `#`. |
| `Lexer.SplitKeepsVisible` | Project/assembler.py:129 | Splitting loses and reorders nothing: the pieces, run together, are exactly the visible characters of the string, in order. |
| `Lexer.BeforeHashShape` | Project/assembler.py:117-122 | The kept part is a prefix without `#`; it stops at a `#` whenever it is shorter than the string, and it is non-empty when the string does not start with `#`. |
| `Labels.Pass1` | Project/assembler.py:141-157 | Pass 1 fails exactly when some label name is declared twice, and then names the first redeclaration. Otherwise the stream is exactly the non-label lines in order, the keys are exactly the declared names, and each label is bound to the number of non-label lines before it. |
| `Labels.InstructionsStep` | Project/assembler.py:147-156 | A label line adds nothing to the stream, whatever follows its first token; any other line is appended as it is. |
| `Labels.InstructionsShape` | Project/assembler.py:147-156 | The stream is no longer than the input, and no line in it has a first token ending in `:`. |
| `Labels.InstructionsPrefix` | Project/assembler.py:154-156 | The stream of a prefix of the input is a prefix of the stream, so order is kept and the count of instructions never decreases. |
| `Labels.InstructionAt` | Project/assembler.py:154-156 | A non-label line k appears in the stream at position `Address(tokens, k)`, the number of non-label lines before it. |
| `Labels.InstructionOrigin` | Project/assembler.py:154-156 | Every line of the stream is some non-label input line, at the position that line's address gives. |
| `Labels.LabelBound` | Project/assembler.py:148-150 | Every bound label value is at most the length of the returned stream. |
| `Labels.LabelsFitByte` | Project/assembler.py:148-156 | When the stream holds at most 255 instructions, every label is bound to at most 255, so the branch field stays 8 bits wide. |
| `Labels.LabelNamesNextInstruction` | Project/assembler.py:148-156 | A label followed by further labels and then an instruction is bound to that instruction's position in the stream. |
| `Labels.SkipLabels` | Project/assembler.py:148-156 | A run of label lines does not advance the instruction count. |
| `Labels.TokenLinesHaveHeads` | Project/assembler.py:148 | Every list `tokenize` emits has a non-empty first token, so `inst[0][-1]` is defined for all of pass 1's input. |
| `Encoder.RegisterCode` | Project/assembler.py:171-494 | A register has a code in a slot exactly when the slot's set lists it, and every code is 3 bits. |
| `Encoder.Field` | Project/assembler.py:169-176 | A register field is its 3-bit code followed by the filler, or empty for an unlisted name. |
| `Encoder.OpcodeOf` | Project/assembler.py:166-485 | Every opcode prefix is a bit string of the width its operand layout expects. |
| `Encoder.Encode` | Project/assembler.py:165-494 | The per-mnemonic `match` of pass 2 for one line. An unknown mnemonic never fails; a known one with too few operands always fails. Every error fits the line's layout: a missing operand only when operands are missing, a bad literal only for the memory and `movei` layouts, a negative address only for memory, an immediate below -128 only for `movei`, and an undefined label (its second token) only for a branch. `EncodeErrors` gives the other direction, and `EncodeBits`, `EncodeWidth`, `ValidLineWord`, `EncodeFixed`, `EncodeUnknown`, `EncodeBranch` and `Disassembler.DisassembleEncode` state widths and content. |
| `Encoder.EncodeErrors` | Project/assembler.py:168-494 | A memory line whose address literal does not parse fails with `NotANumber`, and one whose address is negative with `NegativeAddress`. A `movei` line whose immediate does not parse fails with `NotANumber`, and one below -128 with `InvalidImmediate` (lines 485-487). |
| `Encoder.EncodeBits` | Project/assembler.py:165-494 | Every word pass 2 builds for a line is a string of 0/1, whatever its operands. |
| `Encoder.Pass2` | Project/assembler.py:162-497 | Pass 2 succeeds exactly when every line encodes. It then returns one word per line, in order: that line's encoding followed by `;`, so every word ends in `;`. On failure the error is that of the first failing line. |
| `Encoder.EncodeWidth` | Project/assembler.py:168-494 | With operands present and in range, a known instruction encodes to a 0/1 string, and that string is 16 characters long exactly when every register is in its slot's set. |
| `Encoder.ValidLineWord` | Project/assembler.py:168-494 | A valid line (registers in their sets, addresses 0..255, immediate -127..127, branch labels defined with targets ≤ 255) encodes to exactly 16 characters of 0/1. |
| `Encoder.ValidProgramWords` | Project/assembler.py:165-497 | In the word list of pass 2, the entry of every valid line (branch targets ≤ 255 included) is 16 characters of 0/1 followed by `;`. |
| `Encoder.EncodeFixed` | Project/assembler.py:214-215 | `return` and `halt` always encode to `0011101111111111` and `0011111111111111`. |
| `Encoder.EncodeUnknown` | Project/assembler.py:165-167 | An unrecognised mnemonic gives the empty word, so pass 2 emits just `;` for it. |
| `Encoder.EncodeBranch` | Project/assembler.py:208-213 | A branch or call is its 8-bit prefix followed by `dec2bin8` of the label's value; a label not in the table is an `UndefinedLabel` error. |
| `Encoder.BranchPast255` | Project/assembler.py:89-92 | The missing size check: a branch to a label bound to 256 gives a 24-character word. |
| `Encoder.BranchTarget` | Project/assembler.py:208-213 | After pass 1, a branch to the label declared on line k encodes the number of instructions before line k. |
| `Disassembler.RegisterInverse` | Project/assembler.py:216-225 | Each slot's register code is read back as the register it came from. |
| `Disassembler.RegisterCodeInjective` | Project/assembler.py:216-285 | No two registers of one slot share a code. |
| `Disassembler.LookupPrefix` | Project/assembler.py:168-485 | The opcode prefixes are prefix-free: a word that starts with a mnemonic's prefix is decoded as that mnemonic. |
| `Disassembler.DisassembleEncode` | Project/assembler.py:168-494 | Decoding the word of a valid line (registers in their sets, addresses 0..255, immediate -127..127, branch labels defined with targets ≤ 255) gives back its mnemonic, its registers in order, and its address, label value or immediate. |

## Left out

- `main` (Project/assembler.py:500-528) is not modelled: argument checking, opening and closing the file, and printing the MIF header, the `%02X` address lines and the `[..FF]` fill line. It is I/O and formatting only.
- `fp.seek` and `readlines` (Project/assembler.py:110-112) are not modelled: `Tokenize` takes the lines as a sequence of strings.
- The messages printed before `exit()` and the process exit itself are replaced by the `Error` values listed above.
- `Bits.Dec2Comp8`: for d < -128 the model returns `InvalidImmediate`. The original builds a string from `format` of a negative number, which contains a `-`; that text is not modelled.
- `Decimal.ParseInt`: only ASCII digits with an optional leading `-` are read. Python's `int()` also takes `+`, `_` separators, surrounding white space and Unicode digits, which the model rejects as `NotANumber`.
- `Lexer.Tokenize`: white space and lower-casing are those of ASCII (space, codes 9..13 and 28..31; `A`..`Z`). The Unicode behaviour of `strip`, `split` and `lower` is left out.
- `Labels.Pass1`: requires every line to have a non-empty first token. The original would raise `IndexError` otherwise, but `tokenize` never emits such a line (`Labels.TokenLinesHaveHeads`).
- `Encoder.Pass2`: an empty token list is reported as `MissingOperand`, standing for the `IndexError` of `token[0]`; neither `tokenize` nor `pass1` emits one.
