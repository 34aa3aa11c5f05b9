/** pass1: walks the token lines, binds every label to the address of the
    next instruction (the number of instruction lines before it), and
    returns the instruction lines without the label lines. A line is a
    label line when its first token ends in ':'; the rest of such a line
    is dropped with it. */
module Labels {
  import opened Results
  import Lexer

  /** pass1 reads `inst[0][-1]`: every line needs a first token, and that
      token needs a last character. tokenize guarantees both. */
  predicate HasHead(inst: seq<string>) { |inst| > 0 && |inst[0]| > 0 }

  predicate AllHaveHeads(tokens: seq<seq<string>>)
  {
    forall k :: 0 <= k < |tokens| ==> HasHead(tokens[k])
  }

  predicate IsLabelLine(inst: seq<string>)
  {
    HasHead(inst) && inst[0][|inst[0]| - 1] == ':'
  }

  /** The label a label line declares: its first token without the ':'. */
  function LabelName(inst: seq<string>): string
    requires IsLabelLine(inst)
  {
    inst[0][..|inst[0]| - 1]
  }

  /** The instruction stream: the lines that are not label lines, in order. */
  function Instructions(tokens: seq<seq<string>>): seq<seq<string>>
  {
    if tokens == [] then []
    else
      var last := tokens[|tokens| - 1];
      Instructions(tokens[..|tokens| - 1]) + (if IsLabelLine(last) then [] else [last])
  }

  /** The address pass 1 gives line k: the number of instruction lines before it. */
  function Address(tokens: seq<seq<string>>, k: nat): nat
    requires k <= |tokens|
  {
    |Instructions(tokens[..k])|
  }

  /** The label names declared by the first n lines. */
  function DeclaredBefore(tokens: seq<seq<string>>, n: nat): set<string>
    requires n <= |tokens|
  {
    set k | 0 <= k < n && IsLabelLine(tokens[k]) :: LabelName(tokens[k])
  }

  /** Some label name is declared twice among the first n lines. */
  predicate DuplicateBefore(tokens: seq<seq<string>>, n: nat)
    requires n <= |tokens|
  {
    exists i, j :: 0 <= i < j < n && IsLabelLine(tokens[i]) && IsLabelLine(tokens[j])
      && LabelName(tokens[i]) == LabelName(tokens[j])
  }

  predicate HasDuplicateLabel(tokens: seq<seq<string>>)
  {
    DuplicateBefore(tokens, |tokens|)
  }

  /** Line j declares again a name declared earlier, and is the first line to do so. */
  predicate FirstRedeclaration(tokens: seq<seq<string>>, j: nat)
  {
    && j < |tokens|
    && IsLabelLine(tokens[j])
    && LabelName(tokens[j]) in DeclaredBefore(tokens, j)
    && !DuplicateBefore(tokens, j)
  }

  datatype Resolved = Resolved(stream: seq<seq<string>>, labels: map<string, nat>)

  /** What a successful pass 1 returns: the instruction stream, and a map
      whose keys are exactly the declared label names, each bound to the
      address of its declaration. */
  predicate Resolves(tokens: seq<seq<string>>, res: Resolved)
  {
    && res.stream == Instructions(tokens)
    && res.labels.Keys == DeclaredBefore(tokens, |tokens|)
    && forall k :: 0 <= k < |tokens| && IsLabelLine(tokens[k]) ==>
         LabelName(tokens[k]) in res.labels && res.labels[LabelName(tokens[k])] == Address(tokens, k)
  }

  method Pass1(tokens: seq<seq<string>>) returns (r: Result<Resolved>)
    requires AllHaveHeads(tokens)
    ensures r.Err? <==> HasDuplicateLabel(tokens)
    ensures r.Ok? ==> Resolves(tokens, r.value)
    ensures r.Err? ==>
      exists j: nat :: FirstRedeclaration(tokens, j) && r.error == DuplicateLabel(tokens[j][0])
  {
    var index := 0;
    var labelDict: map<string, nat> := map[];
    var updatedTokens: seq<seq<string>> := [];
    var k := 0;
    while k < |tokens|
      invariant 0 <= k <= |tokens|
      invariant !DuplicateBefore(tokens, k)
      invariant updatedTokens == Instructions(tokens[..k])
      invariant index == |updatedTokens|
      invariant labelDict.Keys == DeclaredBefore(tokens, k)
      invariant forall j :: 0 <= j < k && IsLabelLine(tokens[j]) ==>
        labelDict[LabelName(tokens[j])] == Address(tokens, j)
    {
      var inst := tokens[k];
      InstructionsStep(tokens, k);
      if inst[0][|inst[0]| - 1] == ':' {
        var name := inst[0][..|inst[0]| - 1];
        assert name == LabelName(tokens[k]);
        if name !in labelDict {
          labelDict := labelDict[name := index];
          assert DeclaredBefore(tokens, k + 1) == DeclaredBefore(tokens, k) + {name};
          NoNewDuplicate(tokens, k);
        } else {
          assert FirstRedeclaration(tokens, k);
          return Err(DuplicateLabel(inst[0]));
        }
      } else {
        updatedTokens := updatedTokens + [inst];
        index := index + 1;
        assert DeclaredBefore(tokens, k + 1) == DeclaredBefore(tokens, k);
        NoNewDuplicate(tokens, k);
      }
      k := k + 1;
    }
    assert tokens[..k] == tokens;
    return Ok(Resolved(updatedTokens, labelDict));
  }

  lemma InstructionsStep(tokens: seq<seq<string>>, k: nat)
    requires k < |tokens|
    ensures Instructions(tokens[..k + 1]) ==
      Instructions(tokens[..k]) + (if IsLabelLine(tokens[k]) then [] else [tokens[k]])
  {
    assert tokens[..k + 1][..k] == tokens[..k];
  }

  /** Line k adds no duplicate when it is not a label line or declares a new name. */
  lemma NoNewDuplicate(tokens: seq<seq<string>>, k: nat)
    requires k < |tokens| && !DuplicateBefore(tokens, k)
    requires IsLabelLine(tokens[k]) ==> LabelName(tokens[k]) !in DeclaredBefore(tokens, k)
    ensures !DuplicateBefore(tokens, k + 1)
  {
  }

  // ---------------------------------------------------------------------
  // Properties of pass 1

  /** The stream holds no label line and is never longer than the input. */
  lemma {:induction false} InstructionsShape(tokens: seq<seq<string>>)
    ensures |Instructions(tokens)| <= |tokens|
    ensures forall m :: 0 <= m < |Instructions(tokens)| ==> !IsLabelLine(Instructions(tokens)[m])
    decreases |tokens|
  {
    if tokens != [] {
      InstructionsShape(tokens[..|tokens| - 1]);
    }
  }

  /** Addresses only grow: the instructions before line k are a prefix of
      the instructions before any later line. */
  lemma {:induction false} InstructionsPrefix(tokens: seq<seq<string>>, k: nat, n: nat)
    requires k <= n <= |tokens|
    ensures Address(tokens, k) <= Address(tokens, n)
    ensures Instructions(tokens[..k]) == Instructions(tokens[..n])[..Address(tokens, k)]
    decreases n - k
  {
    if k < n {
      InstructionsPrefix(tokens, k, n - 1);
      InstructionsStep(tokens, n - 1);
    }
  }

  /** Every instruction line sits in the stream at its address. */
  lemma InstructionAt(tokens: seq<seq<string>>, k: nat)
    requires k < |tokens| && !IsLabelLine(tokens[k])
    ensures Address(tokens, k) < |Instructions(tokens)|
    ensures Instructions(tokens)[Address(tokens, k)] == tokens[k]
  {
    assert tokens[..|tokens|] == tokens;
    InstructionsStep(tokens, k);
    InstructionsPrefix(tokens, k + 1, |tokens|);
    var before := Instructions(tokens[..k]);
    assert Instructions(tokens[..k + 1]) == before + [tokens[k]];
    assert Instructions(tokens)[..|before| + 1] == before + [tokens[k]];
    assert Instructions(tokens)[..|before| + 1][|before|] == tokens[k];
  }

  /** Every entry of the stream is some instruction line of the input, at
      that line's address: the stream is exactly the non-label lines. */
  lemma {:induction false} InstructionOrigin(tokens: seq<seq<string>>, m: nat) returns (k: nat)
    requires m < |Instructions(tokens)|
    ensures k < |tokens| && !IsLabelLine(tokens[k])
    ensures Address(tokens, k) == m && Instructions(tokens)[m] == tokens[k]
    decreases |tokens|
  {
    var n := |tokens| - 1;
    InstructionsStep(tokens, n);
    assert tokens[..n + 1] == tokens;
    if m < Address(tokens, n) {
      var init := tokens[..n];
      k := InstructionOrigin(init, m);
      assert init[..k] == tokens[..k];
    } else {
      k := n;
    }
  }

  /** Every label is bound to an address no larger than the stream's length. */
  lemma LabelBound(tokens: seq<seq<string>>, res: Resolved, name: string)
    requires Resolves(tokens, res) && name in res.labels
    ensures res.labels[name] <= |res.stream|
  {
    var k :| 0 <= k < |tokens| && IsLabelLine(tokens[k]) && LabelName(tokens[k]) == name;
    assert tokens[..|tokens|] == tokens;
    InstructionsPrefix(tokens, k, |tokens|);
  }

  /** The source never checks the program's size; only a stream of at most
      255 instructions keeps every label inside dec2bin8's 8-bit range. */
  lemma LabelsFitByte(tokens: seq<seq<string>>, res: Resolved)
    requires Resolves(tokens, res) && |res.stream| <= 255
    ensures forall name :: name in res.labels ==> res.labels[name] <= 255
  {
    forall name | name in res.labels ensures res.labels[name] <= 255 {
      LabelBound(tokens, res, name);
    }
  }

  /** A label declared at line k names line k's address: the next instruction
      line after it, if any, is at that address in the stream. */
  lemma LabelNamesNextInstruction(tokens: seq<seq<string>>, res: Resolved, k: nat, n: nat)
    requires Resolves(tokens, res)
    requires k < n < |tokens| && IsLabelLine(tokens[k]) && !IsLabelLine(tokens[n])
    requires forall j :: k < j < n ==> IsLabelLine(tokens[j])
    ensures res.labels[LabelName(tokens[k])] == Address(tokens, n)
    ensures res.labels[LabelName(tokens[k])] < |res.stream|
    ensures res.stream[res.labels[LabelName(tokens[k])]] == tokens[n]
  {
    SkipLabels(tokens, k, n);
    InstructionAt(tokens, n);
  }

  lemma {:induction false} SkipLabels(tokens: seq<seq<string>>, k: nat, n: nat)
    requires k <= n <= |tokens|
    requires forall j :: k <= j < n ==> IsLabelLine(tokens[j])
    ensures Address(tokens, n) == Address(tokens, k)
    decreases n - k
  {
    if k < n {
      SkipLabels(tokens, k, n - 1);
      InstructionsStep(tokens, n - 1);
    }
  }

  /** tokenize's output always satisfies pass 1's precondition. */
  lemma TokenLinesHaveHeads(tokens: seq<seq<string>>)
    requires forall k :: 0 <= k < |tokens| ==> Lexer.IsTokenLine(tokens[k])
    ensures AllHaveHeads(tokens)
  {
    forall k | 0 <= k < |tokens| ensures HasHead(tokens[k]) {
      assert Lexer.IsToken(tokens[k][0]);
    }
  }
}
