/**
  UTF-8 as defined by RFC 3629: the byte sequences a Rust `&str` may hold,
  the code points they stand for, and the byte count `bytecount::num_chars`
  computes over them.
 */
module Utf8 {
  import opened Seqs

  /** One octet of a UTF-8 string. */
  type Byte = b: int | 0 <= b < 0x100

  /** A Unicode scalar value: a code point that is not a surrogate. */
  predicate IsScalarValue(cp: int) {
    0 <= cp <= 0x10FFFF && !(0xD800 <= cp <= 0xDFFF)
  }

  /** A trailing byte of a multi-byte sequence (10xxxxxx). */
  predicate IsContinuation(b: Byte) {
    0x80 <= b <= 0xBF
  }

  /** Length of the sequence a lead byte opens; 0 for a byte that never leads (RFC 3629 section 4). */
  function SequenceLength(lead: Byte): nat {
    if lead <= 0x7F then 1
    else if 0xC2 <= lead <= 0xDF then 2
    else if 0xE0 <= lead <= 0xEF then 3
    else if 0xF0 <= lead <= 0xF4 then 4
    else 0
  }

  /** One well-formed character: a row of the UTF8-octets table of RFC 3629 section 4. */
  predicate WellFormedChar(c: seq<Byte>) {
    1 <= |c| == SequenceLength(c[0]) &&
    (|c| >= 2 ==> IsContinuation(c[1])) &&
    (|c| >= 3 ==> IsContinuation(c[2])) &&
    (|c| >= 4 ==> IsContinuation(c[3])) &&
    (c[0] == 0xE0 ==> 0xA0 <= c[1]) &&
    (c[0] == 0xED ==> c[1] <= 0x9F) &&
    (c[0] == 0xF0 ==> 0x90 <= c[1]) &&
    (c[0] == 0xF4 ==> c[1] <= 0x8F)
  }

  /** The code point a well-formed character encodes; its range is fixed by the character's length. */
  function DecodeChar(c: seq<Byte>): (cp: int)
    requires WellFormedChar(c)
    ensures IsScalarValue(cp)
    ensures |c| == 1 <==> cp < 0x80
    ensures |c| == 2 <==> 0x80 <= cp < 0x800
    ensures |c| == 3 <==> 0x800 <= cp < 0x10000
    ensures |c| == 4 <==> 0x10000 <= cp
  {
    var b0: int := c[0];
    if |c| == 1 then b0
    else
      var b1: int := c[1];
      if |c| == 2 then (b0 - 0xC0) * 0x40 + (b1 - 0x80)
      else
        var b2: int := c[2];
        if |c| == 3 then (b0 - 0xE0) * 0x1000 + (b1 - 0x80) * 0x40 + (b2 - 0x80)
        else
          var b3: int := c[3];
          (b0 - 0xF0) * 0x40000 + (b1 - 0x80) * 0x1000 + (b2 - 0x80) * 0x40 + (b3 - 0x80)
  }

  /** Well-formed UTF-8: a concatenation of well-formed characters. */
  predicate Valid(s: seq<Byte>)
    decreases |s|
  {
    s == [] ||
    (var n := SequenceLength(s[0]);
     1 <= n <= |s| && WellFormedChar(s[..n]) && Valid(s[n..]))
  }

  /** The code points of a well-formed string, in order (what `str::chars` yields). */
  function Decode(s: seq<Byte>): (cps: seq<int>)
    requires Valid(s)
    ensures |cps| <= |s|
    ensures forall i :: 0 <= i < |cps| ==> IsScalarValue(cps[i])
    decreases |s|
  {
    if s == [] then []
    else
      var n := SequenceLength(s[0]);
      [DecodeChar(s[..n])] + Decode(s[n..])
  }

  /** Peeling the first character off a non-empty well-formed string. */
  lemma DecodeStep(s: seq<Byte>)
    requires Valid(s) && s != []
    ensures var n := SequenceLength(s[0]);
      1 <= n <= |s| && WellFormedChar(s[..n]) && Valid(s[n..]) &&
      Decode(s) == [DecodeChar(s[..n])] + Decode(s[n..]) &&
      Decode(s)[0] == DecodeChar(s[..n]) && Decode(s)[1..] == Decode(s[n..])
  {
    var n := SequenceLength(s[0]);
    ConsParts(DecodeChar(s[..n]), Decode(s[n..]));
  }

  /**
    The shortest UTF-8 form of one scalar value: the low six bits go to each
    continuation byte, the remaining high bits to the lead byte.
   */
  function EncodeChar(cp: int): (c: seq<Byte>)
    requires IsScalarValue(cp)
    ensures WellFormedChar(c) && DecodeChar(c) == cp
  {
    var r0, a := cp % 0x40, cp / 0x40;
    var r1, b := a % 0x40, a / 0x40;
    var r2, q := b % 0x40, b / 0x40;
    if cp < 0x80 then [cp]
    else if cp < 0x800 then [0xC0 + a, 0x80 + r0]
    else if cp < 0x10000 then [0xE0 + b, 0x80 + r1, 0x80 + r0]
    else [0xF0 + q, 0x80 + r2, 0x80 + r1, 0x80 + r0]
  }

  predicate AllScalarValues(cps: seq<int>) {
    forall i :: 0 <= i < |cps| ==> IsScalarValue(cps[i])
  }

  /** UTF-8 encoding of a sequence of scalar values. */
  function Encode(cps: seq<int>): (s: seq<Byte>)
    requires AllScalarValues(cps)
  {
    if cps == [] then [] else EncodeChar(cps[0]) + Encode(cps[1..])
  }

  /** Decoding a well-formed character and encoding it again gives back the same bytes. */
  lemma EncodeDecodeChar(c: seq<Byte>)
    requires WellFormedChar(c)
    ensures EncodeChar(DecodeChar(c)) == c
  {
    var cp := DecodeChar(c);
    var b0: int, b1: int, b2: int, b3: int := c[0], 0, 0, 0;
    if |c| == 2 {
      b1 := c[1];
      DivMod64(cp, b0 - 0xC0, b1 - 0x80);
    } else if |c| == 3 {
      b1, b2 := c[1], c[2];
      DivMod64(cp, (b0 - 0xE0) * 0x40 + (b1 - 0x80), b2 - 0x80);
      DivMod64(cp / 0x40, b0 - 0xE0, b1 - 0x80);
    } else if |c| == 4 {
      b1, b2, b3 := c[1], c[2], c[3];
      DivMod64(cp, (b0 - 0xF0) * 0x1000 + (b1 - 0x80) * 0x40 + (b2 - 0x80), b3 - 0x80);
      DivMod64(cp / 0x40, (b0 - 0xF0) * 0x40 + (b1 - 0x80), b2 - 0x80);
      DivMod64(cp / 0x40 / 0x40, b0 - 0xF0, b1 - 0x80);
    }
  }

  /** Re-encoding the code points of a well-formed string gives back its first character, then the rest re-encoded. */
  lemma EncodeDecodeStep(s: seq<Byte>)
    requires Valid(s) && s != []
    ensures var n := SequenceLength(s[0]);
      1 <= n <= |s| && Valid(s[n..]) && Encode(Decode(s)) == s[..n] + Encode(Decode(s[n..]))
  {
    var n := SequenceLength(s[0]);
    DecodeStep(s);
    var cps := Decode(s);
    assert cps[0] == DecodeChar(s[..n]) && cps[1..] == Decode(s[n..]);
    EncodeDecodeChar(s[..n]);
  }

  /** A string of ASCII bytes is well-formed, and its code points are its bytes. */
  lemma {:induction false} AsciiValid(s: seq<Byte>)
    requires forall i :: 0 <= i < |s| ==> s[i] < 0x80
    ensures Valid(s) && Decode(s) == s
    decreases |s|
  {
    if s != [] {
      AsciiValid(s[1..]);
      assert s[..1] == [s[0]];
      SplitJoin(s, 1);
    }
  }

  /** One well-formed character is a well-formed string of one code point. */
  lemma SingleChar(c: seq<Byte>)
    requires WellFormedChar(c)
    ensures Valid(c) && Decode(c) == [DecodeChar(c)]
  {
    assert c[..|c|] == c && c[|c|..] == [];
  }

  /** Concatenating well-formed strings concatenates their code points. */
  lemma {:induction false} DecodeConcat(a: seq<Byte>, b: seq<Byte>)
    requires Valid(a) && Valid(b)
    ensures Valid(a + b) && Decode(a + b) == Decode(a) + Decode(b)
    decreases |a|
  {
    if a == [] {
      assert a + b == b;
    } else {
      var n := SequenceLength(a[0]);
      DecodeStep(a);
      DecodeConcat(a[n..], b);
      ConcatSlices(a, b, n);
      AppendAssoc([DecodeChar(a[..n])], Decode(a[n..]), Decode(b));
    }
  }

  /** Every well-formed string is the encoding of its code points (decode, then encode, is the identity). */
  lemma {:induction false} EncodeDecode(s: seq<Byte>)
    requires Valid(s)
    ensures Encode(Decode(s)) == s
    decreases |s|
  {
    if s != [] {
      var n := SequenceLength(s[0]);
      EncodeDecodeStep(s);
      EncodeDecode(s[n..]);
      SplitJoin(s, n);
    }
  }

  /** Encoding scalar values yields well-formed UTF-8 that decodes back to them. */
  lemma {:induction false} DecodeEncode(cps: seq<int>)
    requires AllScalarValues(cps)
    ensures Valid(Encode(cps)) && Decode(Encode(cps)) == cps
  {
    if cps != [] {
      var c := EncodeChar(cps[0]);
      var s := Encode(cps);
      DecodeEncode(cps[1..]);
      assert s == c + Encode(cps[1..]);
      assert s[..|c|] == c && s[|c|..] == Encode(cps[1..]);
      assert cps == [cps[0]] + cps[1..];
    }
  }

  /** `b as i8`: the two's-complement reading of a byte. */
  function AsI8(b: Byte): int {
    if b < 0x80 then b else b - 0x100
  }

  /** `bytecount::num_chars`: the number of bytes whose `i8` reading is at least -0x40. */
  function NumChars(s: seq<Byte>): (n: nat)
    ensures n <= |s|
  {
    if s == [] then 0
    else (if AsI8(s[0]) >= -0x40 then 1 else 0) + NumChars(s[1..])
  }

  /** `num_chars` counts exactly the bytes that are not continuation bytes. */
  lemma NumCharsCountsLeads(b: Byte)
    ensures AsI8(b) >= -0x40 <==> !IsContinuation(b)
  {
  }

  lemma {:induction false} NumCharsAppend(a: seq<Byte>, b: seq<Byte>)
    ensures NumChars(a + b) == NumChars(a) + NumChars(b)
  {
    if a != [] {
      assert (a + b)[0] == a[0] && (a + b)[1..] == a[1..] + b;
      NumCharsAppend(a[1..], b);
    } else {
      assert a + b == b;
    }
  }

  /** A run of continuation bytes adds nothing to the count. */
  lemma {:induction false} NumCharsContinuations(s: seq<Byte>)
    requires forall i :: 0 <= i < |s| ==> IsContinuation(s[i])
    ensures NumChars(s) == 0
  {
    if s != [] {
      NumCharsContinuations(s[1..]);
    }
  }

  /** A well-formed character counts once. */
  lemma NumCharsOfChar(c: seq<Byte>)
    requires WellFormedChar(c)
    ensures NumChars(c) == 1
  {
    NumCharsContinuations(c[1..]);
  }

  /** On well-formed UTF-8, `num_chars` is the number of code points. */
  lemma {:induction false} NumCharsDecode(s: seq<Byte>)
    requires Valid(s)
    ensures NumChars(s) == |Decode(s)|
    decreases |s|
  {
    if s != [] {
      var n := SequenceLength(s[0]);
      assert s == s[..n] + s[n..];
      NumCharsAppend(s[..n], s[n..]);
      NumCharsDecode(s[n..]);
      NumCharsOfChar(s[..n]);
    }
  }

  /** The largest of a sequence of code points, 0 for none. */
  function MaxOf(cps: seq<int>): (m: int)
    requires forall i :: 0 <= i < |cps| ==> 0 <= cps[i]
    ensures 0 <= m
    ensures forall i :: 0 <= i < |cps| ==> cps[i] <= m
    ensures cps != [] ==> exists i :: 0 <= i < |cps| && cps[i] == m
  {
    if cps == [] then 0
    else
      var rest := MaxOf(cps[1..]);
      if cps[0] >= rest then cps[0] else rest
  }

  /** A bound that every code point respects and one of them reaches is the maximum. */
  lemma MaxOfIs(cps: seq<int>, m: int, i: nat)
    requires forall j :: 0 <= j < |cps| ==> 0 <= cps[j] <= m
    requires i < |cps| && cps[i] == m
    ensures MaxOf(cps) == m
  {
  }

  /** `iter().find(|v| **v > t).is_some()`: some byte of `s` exceeds `t`. */
  function AnyAbove(s: seq<Byte>, t: int): (r: bool)
    ensures r <==> exists i :: 0 <= i < |s| && s[i] > t
  {
    if s == [] then false
    else s[0] > t || AnyAbove(s[1..], t)
  }

  lemma {:induction false} AnyAboveAppend(a: seq<Byte>, b: seq<Byte>, t: int)
    ensures AnyAbove(a + b, t) == (AnyAbove(a, t) || AnyAbove(b, t))
  {
    if a != [] {
      assert (a + b)[0] == a[0] && (a + b)[1..] == a[1..] + b;
      AnyAboveAppend(a[1..], b, t);
    } else {
      assert a + b == b;
    }
  }

  /** The byte thresholds 0x7F, 0xC3 and 0xEF that separate code points below 0x80, 0x100 and 0x10000. */
  predicate IsThreshold(t: int, m: int) {
    (t == 0x7F && m == 0x80) || (t == 0xC3 && m == 0x100) || (t == 0xEF && m == 0x10000)
  }

  /** In one well-formed character, a byte above `t` occurs exactly when the code point is at least `m`. */
  lemma CharThreshold(c: seq<Byte>, t: int, m: int)
    requires WellFormedChar(c) && IsThreshold(t, m)
    ensures AnyAbove(c, t) <==> DecodeChar(c) >= m
  {
    var cp := DecodeChar(c);
    if |c| >= 2 { assert c[1..] == [c[1]] + c[2..]; }
    if |c| >= 3 { assert c[2..] == [c[2]] + c[3..]; }
    if |c| >= 4 { assert c[3..] == [c[3]]; }
    if |c| == 2 {
      assert cp >= 0x100 <==> c[0] >= 0xC4;
    }
  }

  /**
    In a well-formed string, some byte exceeds `t` exactly when some code point is
    at least `m`: a byte above 0x7F means a code point of U+0080 or more, above 0xC3
    one of U+0100 or more, above 0xEF one above U+FFFF.
   */
  lemma {:induction false} ThresholdIff(s: seq<Byte>, t: int, m: int)
    requires Valid(s) && IsThreshold(t, m)
    ensures AnyAbove(s, t) <==> MaxOf(Decode(s)) >= m
    decreases |s|
  {
    if s != [] {
      var n := SequenceLength(s[0]);
      assert s == s[..n] + s[n..];
      AnyAboveAppend(s[..n], s[n..], t);
      CharThreshold(s[..n], t, m);
      ThresholdIff(s[n..], t, m);
      assert Decode(s)[1..] == Decode(s[n..]);
    }
  }

  /** A well-formed string has as many code points as bytes exactly when every code point is ASCII. */
  lemma {:induction false} AsciiIff(s: seq<Byte>)
    requires Valid(s)
    ensures |Decode(s)| == |s| <==> MaxOf(Decode(s)) < 0x80
    decreases |s|
  {
    if s != [] {
      var n := SequenceLength(s[0]);
      AsciiIff(s[n..]);
      assert Decode(s)[1..] == Decode(s[n..]);
    }
  }

  /** When every code point is ASCII, the code points are the bytes themselves. */
  lemma {:induction false} AsciiDecodeIsIdentity(s: seq<Byte>)
    requires Valid(s) && MaxOf(Decode(s)) < 0x80
    ensures Decode(s) == s
    decreases |s|
  {
    if s != [] {
      var n := SequenceLength(s[0]);
      assert Decode(s)[0] < 0x80 && n == 1;
      assert Decode(s)[1..] == Decode(s[1..]);
      AsciiDecodeIsIdentity(s[1..]);
      assert s == [s[0]] + s[1..];
    }
  }
}
