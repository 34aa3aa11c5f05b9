/** The two numeric field encoders of the assembler: an unsigned 8-bit
    address field (dec2bin8) and an 8-bit two's-complement immediate
    (dec2comp8). Fields are strings of the characters '0' and '1', most
    significant bit first, as the original builds them. Value and
    SignedValue read such a string back; they are the decoders the
    encoders are proved against. */
module Bits {
  import opened Results

  predicate IsBit(c: char) { c == '0' || c == '1' }

  predicate IsBits(s: string) { forall i :: 0 <= i < |s| ==> IsBit(s[i]) }

  predicate AllZeros(s: string) { forall i :: 0 <= i < |s| ==> s[i] == '0' }

  function Pow2(n: nat): (p: nat)
    ensures p >= 1
  {
    if n == 0 then 1 else 2 * Pow2(n - 1)
  }

  lemma Pow2Facts()
    ensures Pow2(7) == 128 && Pow2(8) == 256 && Pow2(16) == 65536
  {
    assert Pow2(8) == 256;
    assert Pow2(12) == 4096;
  }

  /** The unsigned number a bit string denotes (most significant bit first). */
  function Value(s: string): nat
  {
    if s == [] then 0 else 2 * Value(s[..|s| - 1]) + (if s[|s| - 1] == '1' then 1 else 0)
  }

  /** The number a bit string denotes in two's complement of its own width. */
  function SignedValue(s: string): int
  {
    if s != [] && s[0] == '1' then Value(s) - Pow2(|s|) else Value(s)
  }

  /** Python's `int.bit_length()` on a non-negative number. */
  function BitLength(d: nat): nat
  {
    if d == 0 then 0 else 1 + BitLength(d / 2)
  }

  /** Python's `format(d, 'b')` on a non-negative number: the binary digits
      without leading zeros, and "0" for zero. */
  function Binary(d: nat): (b: string)
    ensures IsBits(b)
  {
    if d < 2 then (if d == 0 then "0" else "1")
    else Binary(d / 2) + (if d % 2 == 0 then "0" else "1")
  }

  /** Python's slice `s[0:k]`: a negative stop index counts from the end,
      and both ends are clamped to the string. */
  function SliceTo(s: string, k: int): string
  {
    if k >= 0 then s[..if k <= |s| then k else |s|]
    else s[..if |s| + k >= 0 then |s| + k else 0]
  }

  /** dec2bin8: the address field. A positive d is written as the binary of
      d after `"00000000"[0:8-l]`, l being its bit length; zero is eight
      zeros; a negative d ends the assembly. The upper bound is not checked. */
  function Dec2Bin8(d: int, line: nat): (r: Result<string>)
    ensures r.Err? <==> d < 0
    ensures r.Err? ==> r.error == NegativeAddress(line)
    ensures r.Ok? ==> IsBits(r.value)
  {
    if d > 0 then Ok(SliceTo("00000000", 8 - BitLength(d)) + Binary(d))
    else if d == 0 then Ok("00000000")
    else Err(NegativeAddress(line))
  }

  /** dec2comp8: the immediate field. A positive d is written as dec2bin8
      writes it; a negative d as the binary of 128 + d after
      `"10000000"[0:8-l]`; zero as eight zeros. Below -128 the original
      builds a string holding a minus sign; the model reports an error. */
  function Dec2Comp8(d: int, line: nat): (r: Result<string>)
    ensures r.Err? <==> d < -128
    ensures r.Err? ==> r.error == InvalidImmediate(line)
    ensures r.Ok? ==> IsBits(r.value)
  {
    if d > 0 then Ok(SliceTo("00000000", 8 - BitLength(d)) + Binary(d))
    else if d < 0 then
      if d < -128 then Err(InvalidImmediate(line))
      else
        var dt := 128 + d;
        Ok(SliceTo("10000000", 8 - BitLength(dt)) + Binary(dt))
    else Ok("00000000")
  }

  // ---------------------------------------------------------------------
  // Facts about bit strings

  lemma IsBitsAppend(a: string, b: string)
    requires IsBits(a) && IsBits(b)
    ensures IsBits(a + b)
  {
    assert forall i :: 0 <= i < |a + b| ==> (a + b)[i] == if i < |a| then a[i] else b[i - |a|];
  }

  lemma ValueStep(a: string, b: string)
    requires b != []
    ensures Value(a + b) == 2 * Value(a + b[..|b| - 1]) + (if b[|b| - 1] == '1' then 1 else 0)
  {
    assert (a + b)[..|a + b| - 1] == a + b[..|b| - 1];
  }

  lemma ShiftArith(va: int, vb: int, p: int, bit: int)
    ensures 2 * (va * p + vb) + bit == va * (2 * p) + (2 * vb + bit)
  {
  }

  /** Concatenation shifts the left part up by the width of the right part. */
  lemma {:induction false} ValueAppend(a: string, b: string)
    ensures Value(a + b) == Value(a) * Pow2(|b|) + Value(b)
    decreases |b|
  {
    if b == [] {
      assert a + b == a;
    } else {
      var b' := b[..|b| - 1];
      ValueStep(a, b);
      ValueAppend(a, b');
      ShiftArith(Value(a), Value(b'), Pow2(|b'|), if b[|b| - 1] == '1' then 1 else 0);
    }
  }

  lemma {:induction false} ValueZeros(s: string)
    requires AllZeros(s)
    ensures Value(s) == 0
    decreases |s|
  {
    if s != [] {
      ValueZeros(s[..|s| - 1]);
    }
  }

  /** A string of n bits denotes a number below 2^n. */
  lemma {:induction false} ValueBound(s: string)
    ensures Value(s) < Pow2(|s|)
    decreases |s|
  {
    if s != [] {
      ValueBound(s[..|s| - 1]);
    }
  }

  /** A leading '1' contributes 2^n, n being the width of what follows;
      a leading '0' contributes nothing. */
  lemma {:induction false} ValueCons(c: char, t: string)
    ensures Value([c] + t) == (if c == '1' then Pow2(|t|) else 0) + Value(t)
    decreases |t|
  {
    if t == [] {
      assert [c] + t == [c];
      assert [c][..0] == [];
    } else {
      ValueStep([c], t);
      ValueCons(c, t[..|t| - 1]);
    }
  }

  lemma ValueFirst(s: string)
    requires s != []
    ensures Value(s) == (if s[0] == '1' then Pow2(|s| - 1) else 0) + Value(s[1..])
  {
    assert s == [s[0]] + s[1..];
    ValueCons(s[0], s[1..]);
  }

  /** Leading zeros do not change the value. */
  lemma ValuePadded(z: string, t: string)
    requires AllZeros(z)
    ensures Value(z + t) == Value(t)
  {
    ValueZeros(z);
    ValueAppend(z, t);
  }

  /** Bit strings of one width are determined by their value. */
  lemma {:induction false} ValueInjective(s: string, t: string)
    requires IsBits(s) && IsBits(t) && |s| == |t|
    requires Value(s) == Value(t)
    ensures s == t
    decreases |s|
  {
    if s != [] {
      var s', t' := s[..|s| - 1], t[..|t| - 1];
      assert IsBits(s') && IsBits(t');
      assert s[|s| - 1] == t[|t| - 1];
      ValueInjective(s', t');
      assert s == s' + [s[|s| - 1]] && t == t' + [t[|t| - 1]];
    }
  }

  /** For 0..255 dec2bin8 gives the only 8-character bit string with value d. */
  lemma Dec2Bin8Unique(d: int, line: nat, s: string)
    requires 0 <= d <= 255 && |s| == 8 && IsBits(s) && Value(s) == d
    ensures Dec2Bin8(d, line) == Ok(s)
  {
    Dec2Bin8RoundTrip(d, line);
    ValueInjective(Dec2Bin8(d, line).value, s);
  }

  // ---------------------------------------------------------------------
  // Facts about BitLength and Binary

  /** d fits in n bits exactly when its bit length is at most n. */
  lemma {:induction false} BitLengthBelow(d: nat, n: nat)
    ensures d < Pow2(n) <==> BitLength(d) <= n
    decreases n
  {
    if n > 0 && d > 0 {
      BitLengthBelow(d / 2, n - 1);
    }
  }

  /** format(d, 'b') is the bit-length-wide binary of d, led by a '1' when d > 0. */
  lemma {:induction false} BinaryCorrect(d: nat)
    ensures IsBits(Binary(d)) && Value(Binary(d)) == d
    ensures d > 0 ==> |Binary(d)| == BitLength(d) && Binary(d)[0] == '1'
    ensures d == 0 ==> Binary(d) == "0"
    decreases d
  {
    if d >= 2 {
      var last := if d % 2 == 0 then "0" else "1";
      BinaryCorrect(d / 2);
      assert Binary(d) == Binary(d / 2) + last;
      IsBitsAppend(Binary(d / 2), last);
      ValueAppend(Binary(d / 2), last);
      assert Value(last) == d % 2 by {
        assert last[..0] == [];
      }
    } else if d == 1 {
      assert Binary(d) == "1";
      assert "1"[..0] == [];
    } else {
      assert "0"[..0] == [];
    }
  }

  /** The zero padding `"00000000"[0:8-l]` that both encoders put before
      the binary of a positive number of bit length l. */
  lemma ZeroPad(l: nat)
    requires l > 0
    ensures var z := SliceTo("00000000", 8 - l);
      AllZeros(z) && IsBits(z) && |z| == (if l <= 8 then 8 - l else if l <= 16 then 16 - l else 0)
  {
  }

  /** What both encoders do with a positive number: zero padding from the
      Python slice, then the binary digits. */
  lemma PositiveField(d: nat)
    requires d > 0
    ensures var s := SliceTo("00000000", 8 - BitLength(d)) + Binary(d);
      && IsBits(s) && Value(s) == d
      && |s| == (if d < 256 then 8 else if d < 65536 then 16 else BitLength(d))
  {
    var pad := SliceTo("00000000", 8 - BitLength(d));
    BinaryCorrect(d);
    ZeroPad(BitLength(d));
    IsBitsAppend(pad, Binary(d));
    ValuePadded(pad, Binary(d));
    BitLengthBelow(d, 8);
    BitLengthBelow(d, 16);
    Pow2Facts();
  }

  // ---------------------------------------------------------------------
  // dec2bin8

  /** For 0..255 the address field is eight bits that read back as d. */
  lemma Dec2Bin8RoundTrip(d: int, line: nat)
    requires 0 <= d <= 255
    ensures Dec2Bin8(d, line).Ok?
    ensures var s := Dec2Bin8(d, line).value; |s| == 8 && IsBits(s) && Value(s) == d
  {
    if d > 0 {
      PositiveField(d);
    } else {
      ValueZeros("00000000");
    }
  }

  /** Without an upper-bound check every non-negative d still reads back as d,
      but from 256 on the field is 16 characters wide (and wider from 65536). */
  lemma Dec2Bin8Width(d: int, line: nat)
    requires d >= 0
    ensures var s := Dec2Bin8(d, line).value;
      && IsBits(s) && Value(s) == d
      && |s| == (if d < 256 then 8 else if d < 65536 then 16 else BitLength(d))
  {
    if d > 0 {
      PositiveField(d);
    } else {
      ValueZeros("00000000");
    }
  }

  lemma BitLength256()
    ensures BitLength(256) == 9
  {
    assert BitLength(1) == 1;
    assert BitLength(2) == 2;
    assert BitLength(4) == 3;
    assert BitLength(8) == 4;
    assert BitLength(16) == 5;
    assert BitLength(32) == 6;
    assert BitLength(64) == 7;
    assert BitLength(128) == 8;
  }

  lemma Binary256()
    ensures Binary(256) == "100000000"
  {
    assert Binary(2) == "10";
    assert Binary(4) == "100";
    assert Binary(8) == "1000";
    assert Binary(16) == "10000";
    assert Binary(32) == "100000";
    assert Binary(64) == "1000000";
    assert Binary(128) == "10000000";
  }

  /** The missing upper-bound check: 256 yields a 16-character field. */
  lemma Dec2Bin8At256(line: nat)
    ensures Dec2Bin8(256, line) == Ok("0000000100000000")
  {
    BitLength256();
    Binary256();
    assert SliceTo("00000000", -1) == "0000000";
    assert "0000000" + "100000000" == "0000000100000000";
  }

  // ---------------------------------------------------------------------
  // dec2comp8

  /** A negative d in -127..-1 is written as '1' followed by the seven-bit
      binary of 128 + d, so its two's-complement value is d. */
  lemma SignPad(l: int)
    requires 0 <= l <= 7
    ensures var z := "10000000"[1..8 - l];
      SliceTo("10000000", 8 - l) == ['1'] + z && AllZeros(z) && IsBits(z) && |z| == 7 - l
  {
    var z := "10000000"[1..8 - l];
    assert SliceTo("10000000", 8 - l) == "10000000"[..8 - l];
    assert "10000000"[..8 - l] == ['1'] + z;
    assert forall i :: 0 <= i < |z| ==> z[i] == "10000000"[1 + i];
  }

  /** '1', then zeros, then the bits of dt, eight in all: two's complement dt - 128. */
  lemma OnePrefixedField(z: string, b: string)
    requires AllZeros(z) && IsBits(b) && |z| + |b| == 7
    ensures var s := ['1'] + (z + b);
      |s| == 8 && IsBits(s) && s[0] == '1' && SignedValue(s) == Value(b) - 128
  {
    var rest := z + b;
    ValuePadded(z, b);
    IsBitsAppend(z, b);
    IsBitsAppend(['1'], rest);
    ValueCons('1', rest);
    Pow2Facts();
  }

  /** The sign pad of a negative d followed by l bits b: eight bits in all,
      with two's-complement value Value(b) - 128. */
  lemma SignPadded(l: int, b: string)
    requires 1 <= l <= 7 && IsBits(b) && |b| == l
    ensures var s := SliceTo("10000000", 8 - l) + b;
      && |s| == 8 && IsBits(s) && s[0] == '1' && SignedValue(s) == Value(b) - 128
  {
    var zeros := "10000000"[1..8 - l];
    SignPad(l);
    OnePrefixedField(zeros, b);
    assert SliceTo("10000000", 8 - l) + b == ['1'] + (zeros + b);
  }

  lemma NegativeField(d: int)
    requires -127 <= d < 0
    ensures var dt := 128 + d;
      var s := SliceTo("10000000", 8 - BitLength(dt)) + Binary(dt);
      && |s| == 8 && IsBits(s) && s[0] == '1' && SignedValue(s) == d
  {
    var dt := 128 + d;
    var l: int := BitLength(dt);
    assert 1 <= l <= 7 by {
      BitLengthBelow(dt, 7);
      Pow2Facts();
    }
    var b := Binary(dt);
    assert IsBits(b) && Value(b) == dt && |b| == l by {
      BinaryCorrect(dt);
    }
    SignPadded(l, b);
  }

  /** For -127..127 the immediate field is eight bits whose two's-complement
      value is d; zero is all zeros, a non-negative d starts with '0' and a
      negative one with '1'. */
  lemma Dec2Comp8RoundTrip(d: int, line: nat)
    requires -127 <= d <= 127
    ensures Dec2Comp8(d, line).Ok?
    ensures var s := Dec2Comp8(d, line).value;
      && |s| == 8 && IsBits(s) && SignedValue(s) == d
      && (d == 0 ==> s == "00000000")
      && (d >= 0 ==> s[0] == '0')
      && (d < 0 ==> s[0] == '1')
  {
    var s := Dec2Comp8(d, line).value;
    if d > 0 {
      PositiveField(d);
      ValueFirst(s);
      Pow2Facts();
    } else if d < 0 {
      NegativeField(d);
    } else {
      ValueZeros("00000000");
    }
  }

  /** dt = 128 + (-128) is 0, whose bit length is 0 and whose binary is "0":
      the field comes out nine characters long. */
  lemma Dec2Comp8AtMinus128(line: nat)
    ensures Dec2Comp8(-128, line) == Ok("100000000")
  {
    assert BitLength(0) == 0 && Binary(0) == "0";
    assert SliceTo("10000000", 8) == "10000000";
    assert "10000000" + "0" == "100000000";
    var r := Dec2Comp8(-128, line);
    assert r == Ok(SliceTo("10000000", 8 - BitLength(0)) + Binary(0));
  }

  /** 128..255 is not rejected: the field is the unsigned pattern, which a
      two's-complement reader takes for d - 256. */
  lemma Dec2Comp8Unsigned(d: int, line: nat)
    requires 128 <= d <= 255
    ensures Dec2Comp8(d, line) == Dec2Bin8(d, line)
    ensures var s := Dec2Comp8(d, line).value; |s| == 8 && SignedValue(s) == d - 256
  {
    var s := Dec2Comp8(d, line).value;
    PositiveField(d);
    ValueFirst(s);
    Pow2Facts();
    assert s[0] == '1' by {
      ValueBound(s[1..]);
    }
  }
}
