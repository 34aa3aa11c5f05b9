/** tokenize: turns the source lines into lists of lower-case tokens. Each
    line is stripped, cut at its first '#', dropped when nothing is left,
    split on runs of white space, and its tokens are lower-cased. Lines are
    given as a sequence of strings (the original reads them from a file). */
module Lexer {

  /** Python's str.isspace() on ASCII: tab, line feed, vertical tab, form
      feed, carriage return, the four separators 0x1C..0x1F, and space. */
  predicate IsSpace(c: char)
  {
    c == ' ' || 9 <= c as int <= 13 || 28 <= c as int <= 31
  }

  predicate IsUpper(c: char) { 'A' <= c <= 'Z' }

  /** Python's str.lower() on one ASCII character. */
  function LowerChar(c: char): char
  {
    if IsUpper(c) then (c as int + 32) as char else c
  }

  function Lower(w: string): string
  {
    seq(|w|, i requires 0 <= i < |w| => LowerChar(w[i]))
  }

  predicate NoHash(s: string) { forall i :: 0 <= i < |s| ==> s[i] != '#' }

  /** A piece of a split line: non-empty, without white space or '#'. */
  predicate IsWord(w: string)
  {
    |w| > 0 && forall i :: 0 <= i < |w| ==> !IsSpace(w[i]) && w[i] != '#'
  }

  /** A token as tokenize leaves it: non-empty, without white space, without
      '#', and without upper-case letters. */
  predicate IsToken(w: string)
  {
    |w| > 0 && forall i :: 0 <= i < |w| ==> !IsSpace(w[i]) && w[i] != '#' && !IsUpper(w[i])
  }

  /** A line of tokens as tokenize emits it, which is what pass 1 and pass 2
      expect: at least one token, every token well formed. */
  predicate IsTokenLine(t: seq<string>)
  {
    |t| > 0 && forall k :: 0 <= k < |t| ==> IsToken(t[k])
  }

  // ---------------------------------------------------------------------
  // The library string operations tokenize calls

  /** str.lstrip(): drops the leading white space. */
  function TrimLeft(s: string): (r: string)
    ensures |r| <= |s| && r == s[|s| - |r|..]
    ensures forall j :: 0 <= j < |s| - |r| ==> IsSpace(s[j])
    ensures r == [] || !IsSpace(r[0])
  {
    if s != [] && IsSpace(s[0]) then TrimLeft(s[1..]) else s
  }

  /** str.rstrip(): drops the trailing white space. */
  function TrimRight(s: string): (r: string)
    ensures |r| <= |s| && r == s[..|r|]
    ensures forall j :: |r| <= j < |s| ==> IsSpace(s[j])
    ensures r == [] || !IsSpace(r[|r| - 1])
  {
    if s != [] && IsSpace(s[|s| - 1]) then TrimRight(s[..|s| - 1]) else s
  }

  /** str.strip(). */
  function Strip(s: string): string
  {
    TrimRight(TrimLeft(s))
  }

  /** The longest prefix without white space. */
  function TakeWord(s: string): (r: string)
    ensures |r| <= |s| && r == s[..|r|]
    ensures forall i :: 0 <= i < |r| ==> !IsSpace(r[i])
    ensures s != [] && !IsSpace(s[0]) ==> |r| > 0
    ensures |r| < |s| ==> IsSpace(s[|r|])
  {
    if s != [] && !IsSpace(s[0]) then [s[0]] + TakeWord(s[1..]) else []
  }

  /** str.split() with no separator: the maximal runs of non-white-space
      characters, in order. */
  function Split(s: string): seq<string>
    decreases |s|
  {
    var t := TrimLeft(s);
    if t == [] then []
    else
      var w := TakeWord(t);
      [w] + Split(t[|w|..])
  }

  /** What the character loop of tokenize keeps: everything before the first '#'. */
  function BeforeHash(s: string): string
  {
    if s == [] || s[0] == '#' then [] else [s[0]] + BeforeHash(s[1..])
  }

  /** The tokens of one line, once it is known not to be blank. */
  function LineWords(line: string): seq<string>
  {
    LowerAll(Split(BeforeHash(Strip(line))))
  }

  function LowerAll(words: seq<string>): seq<string>
  {
    seq(|words|, k requires 0 <= k < |words| => Lower(words[k]))
  }

  /** What tokenize emits for one line: nothing, or one list of tokens. */
  function LineTokens(line: string): seq<seq<string>>
  {
    if BeforeHash(Strip(line)) == [] then [] else [LineWords(line)]
  }

  /** What f gives for each line, concatenated in line order. */
  function Concat<T>(f: string -> seq<T>, lines: seq<string>): seq<T>
  {
    if lines == [] then []
    else Concat(f, lines[..|lines| - 1]) + f(lines[|lines| - 1])
  }

  /** The specification of tokenize. */
  function TokenLines(lines: seq<string>): seq<seq<string>>
  {
    Concat(LineTokens, lines)
  }

  /** A line that tokenize drops, stated without reference to its steps:
      every visible character is a '#' or comes after one. */
  predicate IsBlankOrComment(line: string)
  {
    forall i :: 0 <= i < |line| && !IsSpace(line[i]) ==> '#' in line[..i + 1]
  }

  // ---------------------------------------------------------------------
  // tokenize

  method Tokenize(lines: seq<string>) returns (tokens: seq<seq<string>>)
    ensures tokens == TokenLines(lines)
    ensures |tokens| <= |lines|
    ensures forall k :: 0 <= k < |tokens| ==> IsTokenLine(tokens[k])
  {
    tokens := [];
    var n := 0;
    while n < |lines|
      invariant 0 <= n <= |lines|
      invariant tokens == TokenLines(lines[..n])
    {
      TokenLinesStep(lines, n);
      var ls := Strip(lines[n]);
      var uls := CutComment(ls);
      if |uls| == 0 {
        n := n + 1;
        continue;
      }
      var words := Split(uls);
      var newwords := LowerWords(words);
      LineWordsOf(lines[n], newwords);
      tokens := tokens + [newwords];
      n := n + 1;
    }
    assert lines[..n] == lines;
    TokenLinesShape(lines);
  }

  /** The character loop of tokenize: copies characters until the first '#'. */
  method CutComment(ls: string) returns (uls: string)
    ensures uls == BeforeHash(ls)
  {
    uls := "";
    var i := 0;
    while i < |ls|
      invariant 0 <= i <= |ls|
      invariant BeforeHash(ls) == uls + BeforeHash(ls[i..])
    {
      if ls[i] != '#' {
        BeforeHashStep(ls, i);
        uls := uls + [ls[i]];
        i := i + 1;
      } else {
        break;
      }
    }
    assert i == |ls| ==> ls[i..] == [];
  }

  /** The word loop of tokenize: lower-cases each word, keeping their order. */
  method LowerWords(words: seq<string>) returns (newwords: seq<string>)
    ensures |newwords| == |words|
    ensures forall k :: 0 <= k < |words| ==> newwords[k] == Lower(words[k])
  {
    newwords := [];
    var j := 0;
    while j < |words|
      invariant 0 <= j <= |words|
      invariant |newwords| == j
      invariant forall k :: 0 <= k < j ==> newwords[k] == Lower(words[k])
    {
      newwords := newwords + [Lower(words[j])];
      j := j + 1;
    }
  }

  lemma LineWordsOf(line: string, lowered: seq<string>)
    requires BeforeHash(Strip(line)) != []
    requires var words := Split(BeforeHash(Strip(line)));
      |lowered| == |words| && forall k :: 0 <= k < |words| ==> lowered[k] == Lower(words[k])
    ensures LineTokens(line) == [lowered]
  {
    LowerAllOf(Split(BeforeHash(Strip(line))), lowered);
  }

  lemma LowerAllOf(words: seq<string>, lowered: seq<string>)
    requires |lowered| == |words| && forall k :: 0 <= k < |words| ==> lowered[k] == Lower(words[k])
    ensures LowerAll(words) == lowered
  {
  }

  lemma TokenLinesStep(lines: seq<string>, n: nat)
    requires n < |lines|
    ensures TokenLines(lines[..n + 1]) == TokenLines(lines[..n]) + LineTokens(lines[n])
  {
    assert lines[..n + 1][..n] == lines[..n];
  }

  lemma BeforeHashStep(s: string, i: nat)
    requires i < |s| && s[i] != '#'
    ensures BeforeHash(s[i..]) == [s[i]] + BeforeHash(s[i + 1..])
  {
    assert s[i..][1..] == s[i + 1..];
  }

  // ---------------------------------------------------------------------
  // Properties of tokenize

  /** Lines are handled one at a time: the tokens of two runs of lines are
      the tokens of the first followed by those of the second, so source
      order is kept. */
  lemma TokenLinesAppend(a: seq<string>, b: seq<string>)
    ensures TokenLines(a + b) == TokenLines(a) + TokenLines(b)
  {
    ConcatAppend(LineTokens, a, b);
  }

  lemma {:induction false} ConcatAppend<T>(f: string -> seq<T>, a: seq<string>, b: seq<string>)
    ensures Concat(f, a + b) == Concat(f, a) + Concat(f, b)
    decreases |b|
  {
    if b == [] {
      assert a + b == a;
    } else {
      var b' := b[..|b| - 1];
      assert (a + b)[..|a + b| - 1] == a + b';
      assert (a + b)[|a + b| - 1] == b[|b| - 1];
      ConcatAppend(f, a, b');
    }
  }

  /** A single line contributes nothing exactly when it is blank or holds
      only a comment, and its token list otherwise. */
  lemma TokenLinesOfLine(line: string)
    ensures IsBlankOrComment(line) ==> TokenLines([line]) == []
    ensures !IsBlankOrComment(line) ==> TokenLines([line]) == [LineWords(line)]
  {
    assert TokenLines([line]) == LineTokens(line) by {
      assert [line][..0] == [];
      assert Concat(LineTokens, [line]) == Concat(LineTokens, []) + LineTokens(line);
      assert Concat(LineTokens, []) + LineTokens(line) == LineTokens(line);
    }
    DroppedIffBlank(line);
  }

  lemma DroppedIffBlank(line: string)
    ensures BeforeHash(Strip(line)) == [] <==> IsBlankOrComment(line)
  {
    var r := TrimLeft(line);
    var p := |line| - |r|;
    if r == [] {
      assert Strip(line) == [];
    } else {
      assert line[p] == r[0];
      var st := Strip(line);
      StripKeepsFirst(r);
      assert st != [] && st[0] == line[p];
      if line[p] == '#' {
        forall i | 0 <= i < |line| && !IsSpace(line[i])
          ensures '#' in line[..i + 1]
        {
          assert i >= p;
          assert line[..i + 1][p] == '#';
        }
      } else {
        assert BeforeHash(st) != [];
        assert !IsSpace(line[p]);
        assert line[..p + 1][p] == line[p];
        assert forall j :: 0 <= j < p ==> line[..p + 1][j] == line[j];
        assert '#' !in line[..p + 1];
      }
    }
  }

  /** Right-stripping a string that starts with a visible character keeps that character. */
  lemma StripKeepsFirst(r: string)
    requires r != [] && !IsSpace(r[0])
    ensures TrimRight(r) != [] && TrimRight(r)[0] == r[0]
  {
  }

  /** tokenize emits at most one list per line, and every list it emits is
      a well-formed token line. */
  lemma {:induction false} TokenLinesShape(lines: seq<string>)
    ensures |TokenLines(lines)| <= |lines|
    ensures forall k :: 0 <= k < |TokenLines(lines)| ==> IsTokenLine(TokenLines(lines)[k])
    decreases |lines|
  {
    if lines != [] {
      var init := lines[..|lines| - 1];
      var last := lines[|lines| - 1];
      TokenLinesShape(init);
      if BeforeHash(Strip(last)) != [] {
        LineWordsShape(last);
      }
    }
  }

  /** The tokens of a line that is not dropped form a well-formed token line. */
  lemma LineWordsShape(line: string)
    requires BeforeHash(Strip(line)) != []
    ensures IsTokenLine(LineWords(line))
  {
    var st := Strip(line);
    var u := BeforeHash(st);
    BeforeHashShape(st);
    StripKeepsFirst(TrimLeft(line));
    SplitShape(u);
    SplitNonEmpty(u);
    var words := Split(u);
    var lw := LineWords(line);
    assert lw == LowerAll(words);
    forall k | 0 <= k < |lw| ensures IsToken(lw[k]) {
      LowerWord(words[k]);
    }
  }

  /** Lower-casing a word gives a token. */
  lemma LowerWord(w: string)
    requires IsWord(w)
    ensures IsToken(Lower(w))
  {
  }

  /** The part before the first '#' is a prefix without '#', led by the
      first character when that is not '#'. */
  lemma {:induction false} BeforeHashShape(s: string)
    ensures |BeforeHash(s)| <= |s| && BeforeHash(s) == s[..|BeforeHash(s)|]
    ensures NoHash(BeforeHash(s))
    ensures s != [] && s[0] != '#' ==> BeforeHash(s) != []
    ensures |BeforeHash(s)| < |s| ==> s[|BeforeHash(s)|] == '#'
    decreases |s|
  {
    if s != [] && s[0] != '#' {
      BeforeHashShape(s[1..]);
    }
  }

  /** Every piece of a split of a string without '#' is a word. */
  lemma {:induction false} SplitShape(s: string)
    requires NoHash(s)
    ensures forall k :: 0 <= k < |Split(s)| ==> IsWord(Split(s)[k])
    decreases |s|
  {
    var t := TrimLeft(s);
    if t != [] {
      NoHashSuffix(s, |s| - |t|);
      var w := TakeWord(t);
      FirstWord(t);
      var rest := t[|w|..];
      NoHashSuffix(t, |w|);
      SplitShape(rest);
      assert Split(s) == [w] + Split(rest);
      forall k | 0 <= k < |Split(s)| ensures IsWord(Split(s)[k]) {
        if k > 0 {
          assert Split(s)[k] == Split(rest)[k - 1];
        }
      }
    }
  }

  /** The visible characters of a string, in order. */
  function Visible(s: string): string
  {
    if s == [] then [] else (if IsSpace(s[0]) then [] else [s[0]]) + Visible(s[1..])
  }

  /** The pieces of a split, run together. */
  function Glue(words: seq<string>): string
  {
    if words == [] then [] else words[0] + Glue(words[1..])
  }

  /** Splitting loses and reorders nothing: the pieces, run together, are
      exactly the visible characters of the string. */
  lemma {:induction false} SplitKeepsVisible(s: string)
    ensures Glue(Split(s)) == Visible(s)
    decreases |s|
  {
    var t := TrimLeft(s);
    VisibleTrimLeft(s);
    if t != [] {
      var w := TakeWord(t);
      var rest := t[|w|..];
      SplitStep(s);
      GlueCons(w, Split(rest));
      SplitKeepsVisible(rest);
      VisibleStep(t);
    }
  }

  lemma SplitStep(s: string)
    requires TrimLeft(s) != []
    ensures Split(s) == [TakeWord(TrimLeft(s))] + Split(TrimLeft(s)[|TakeWord(TrimLeft(s))|..])
  {
  }

  lemma VisibleStep(t: string)
    ensures Visible(t) == TakeWord(t) + Visible(t[|TakeWord(t)|..])
  {
    var w := TakeWord(t);
    VisibleWord(w);
    assert t == w + t[|w|..];
    VisibleAppend(w, t[|w|..]);
  }

  lemma GlueCons(w: string, words: seq<string>)
    ensures Glue([w] + words) == w + Glue(words)
  {
    assert ([w] + words)[0] == w && ([w] + words)[1..] == words;
  }

  lemma {:induction false} VisibleTrimLeft(s: string)
    ensures Visible(TrimLeft(s)) == Visible(s)
    decreases |s|
  {
    if s != [] && IsSpace(s[0]) {
      VisibleTrimLeft(s[1..]);
    }
  }

  lemma {:induction false} VisibleWord(w: string)
    requires forall i :: 0 <= i < |w| ==> !IsSpace(w[i])
    ensures Visible(w) == w
    decreases |w|
  {
    if w != [] {
      VisibleWord(w[1..]);
    }
  }

  lemma {:induction false} VisibleAppend(a: string, b: string)
    ensures Visible(a + b) == Visible(a) + Visible(b)
    decreases |a|
  {
    if a != [] {
      assert (a + b)[0] == a[0] && (a + b)[1..] == a[1..] + b;
      VisibleAppend(a[1..], b);
    } else {
      assert a + b == b;
    }
  }

  lemma NoHashSuffix(s: string, k: nat)
    requires NoHash(s) && k <= |s|
    ensures NoHash(s[k..])
  {
    assert forall i :: 0 <= i < |s| - k ==> s[k..][i] == s[k + i];
  }

  /** The first piece of a string without '#' that starts with a visible character is a word. */
  lemma FirstWord(t: string)
    requires NoHash(t) && t != [] && !IsSpace(t[0])
    ensures IsWord(TakeWord(t))
  {
    var w := TakeWord(t);
    assert forall i :: 0 <= i < |w| ==> w[i] == t[i];
  }

  /** A string that starts with a visible character splits into at least one piece. */
  lemma SplitNonEmpty(s: string)
    requires s != [] && !IsSpace(s[0])
    ensures |Split(s)| > 0
  {
  }
}
