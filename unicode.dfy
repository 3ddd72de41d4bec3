/**
  The text fast path of `src/str.rs`: a well-formed UTF-8 string becomes a
  host string object whose code units have the narrowest fixed width that
  holds every code point, filled one unit per character and NUL-terminated.
 */
module Unicode {
  import opened Seqs
  import opened Utf8

  /** The four compact storage kinds a host string can have. */
  datatype Kind = Ascii | OneByte | TwoByte | FourByte

  /** The maximum-character argument each writer passes to `PyUnicode_New`. */
  function MaxChar(k: Kind): int {
    match k
    case Ascii => 127
    case OneByte => 255
    case TwoByte => 65535
    case FourByte => 1114111
  }

  /** The narrowest kind whose maximum character is at least `m`. */
  function KindFor(m: int): (k: Kind)
    requires 0 <= m <= 0x10FFFF
    ensures m <= MaxChar(k)
    ensures forall k' :: m <= MaxChar(k') ==> MaxChar(k) <= MaxChar(k')
  {
    if m <= 127 then Ascii
    else if m <= 255 then OneByte
    else if m <= 65535 then TwoByte
    else FourByte
  }

  /**
    A compact host string as `PyUnicode_New(length, maxChar)` allocates it:
    room for `length` code units and a NUL after them.
   */
  class UnicodeObject {
    const length: nat
    const maxChar: int
    const data: array<int>

    ghost predicate Valid()
      reads this
    {
      data.Length == length + 1
    }

    /** The code units, without the terminator: what the host reads back. */
    function Units(): (u: seq<int>)
      reads this, data
      requires Valid()
      ensures |u| == length
    {
      data[..length]
    }

    constructor New(size: nat, maxChar: int)
      ensures Valid() && length == size && this.maxChar == maxChar && fresh(data)
    {
      length := size;
      this.maxChar := maxChar;
      data := new int[size + 1];
    }
  }

  /**
    `pyunicode_ascii`: copy `numChars` bytes verbatim after the header and
    terminate them.
   */
  method PyUnicodeAscii(buf: seq<Byte>, numChars: nat) returns (r: UnicodeObject)
    requires numChars <= |buf|
    ensures fresh(r) && fresh(r.data) && r.Valid()
    ensures r.maxChar == MaxChar(Ascii) && r.length == numChars
    ensures r.Units() == buf[..numChars] && r.data[numChars] == 0
  {
    r := new UnicodeObject.New(numChars, 127);
    forall j | 0 <= j < numChars {
      r.data[j] := buf[j];
    }
    r.data[numChars] := 0;
  }

  /** Each code point cut to `width` values, as a cast to an unsigned integer of that range does. */
  function Narrow(cps: seq<int>, width: int): (u: seq<int>)
    requires width > 0
    ensures |u| == |cps| && forall j :: 0 <= j < |u| ==> u[j] == cps[j] % width
  {
    seq(|cps|, j requires 0 <= j < |cps| => cps[j] % width)
  }

  /** A cast loses nothing when every code point is below the width. */
  lemma NarrowLossless(cps: seq<int>, width: int)
    requires width > 0 && forall j :: 0 <= j < |cps| ==> 0 <= cps[j] < width
    ensures Narrow(cps, width) == cps
  {
  }

  /** The character starting at byte `i` of a well-formed suffix, and what is left after it. */
  lemma DecodeAt(buf: seq<Byte>, i: nat)
    requires i < |buf| && Valid(buf[i..])
    ensures var n := SequenceLength(buf[i]);
      i < i + n <= |buf| && WellFormedChar(buf[i..i + n]) && Valid(buf[i + n..]) &&
      Decode(buf[i..]) != [] &&
      Decode(buf[i..])[0] == DecodeChar(buf[i..i + n]) && Decode(buf[i..])[1..] == Decode(buf[i + n..])
  {
    DecodeStep(buf[i..]);
    SuffixSlices(buf, i, SequenceLength(buf[i]));
  }

  /**
    One step of `chars()`: the character at byte offset `i` is the next code
    point `cp`; the walk resumes at byte `next`, and `p + 1` code points are done.
   */
  method NextChar(buf: seq<Byte>, i: nat, ghost cps: seq<int>, ghost p: nat) returns (cp: int, next: nat)
    requires i < |buf| && Valid(buf[i..]) && p <= |cps| && cps[p..] == Decode(buf[i..])
    ensures i < next <= |buf| && Valid(buf[next..])
    ensures p < |cps| && cps[p] == cp && cps[p + 1..] == Decode(buf[next..])
  {
    var n := SequenceLength(buf[i]);
    DecodeAt(buf, i);
    TailOfSuffix(cps, p, Decode(buf[i..]));
    cp := DecodeChar(buf[i..i + n]);
    next := i + n;
  }

  /**
    The loop the three widening writers share: walk `buf` one character at a
    time as `chars()` does, store each code point cut to `width` values (the
    `as u8`, `as u16` or `as u32` cast) at the advancing data pointer, then
    write the NUL where the pointer stops.
   */
  method WriteChars(data: array<int>, buf: seq<Byte>, numChars: nat, width: int)
    requires Valid(buf) && numChars == NumChars(buf) && data.Length == numChars + 1 && width > 0
    modifies data
    ensures data[..numChars] == Narrow(Decode(buf), width) && data[numChars] == 0
  {
    ghost var cps := Decode(buf);
    ghost var units := Narrow(cps, width);
    NumCharsDecode(buf);
    var i, p := 0, 0;
    while i < |buf|
      invariant 0 <= i <= |buf| && Valid(buf[i..])
      invariant 0 <= p <= |cps| && cps[p..] == Decode(buf[i..])
      invariant data.Length == |cps| + 1
      invariant data[..p] == units[..p]
      decreases |buf| - i
    {
      var each, next := NextChar(buf, i, cps, p);
      data[p] := each % width;
      i, p := next, p + 1;
    }
    assert buf[i..] == [];
    TakeAll(units, p);
    data[p] := 0;
  }

  /** `pyunicode_onebyte`: one byte per character (`each as u8`). */
  method PyUnicodeOneByte(buf: seq<Byte>, numChars: nat) returns (r: UnicodeObject)
    requires Valid(buf) && numChars == NumChars(buf)
    ensures fresh(r) && fresh(r.data) && r.Valid()
    ensures r.maxChar == MaxChar(OneByte) && r.length == numChars
    ensures r.Units() == Narrow(Decode(buf), 0x100) && r.data[numChars] == 0
  {
    r := new UnicodeObject.New(numChars, 255);
    WriteChars(r.data, buf, numChars, 0x100);
  }

  /** `pyunicode_twobyte`: two bytes per character (`each as u16`). */
  method PyUnicodeTwoByte(buf: seq<Byte>, numChars: nat) returns (r: UnicodeObject)
    requires Valid(buf) && numChars == NumChars(buf)
    ensures fresh(r) && fresh(r.data) && r.Valid()
    ensures r.maxChar == MaxChar(TwoByte) && r.length == numChars
    ensures r.Units() == Narrow(Decode(buf), 0x10000) && r.data[numChars] == 0
  {
    r := new UnicodeObject.New(numChars, 65535);
    WriteChars(r.data, buf, numChars, 0x10000);
  }

  /** `pyunicode_fourbyte`: four bytes per character (`each as u32`). */
  method PyUnicodeFourByte(buf: seq<Byte>, numChars: nat) returns (r: UnicodeObject)
    requires Valid(buf) && numChars == NumChars(buf)
    ensures fresh(r) && fresh(r.data) && r.Valid()
    ensures r.maxChar == MaxChar(FourByte) && r.length == numChars
    ensures r.Units() == Narrow(Decode(buf), 0x1_0000_0000) && r.data[numChars] == 0
  {
    r := new UnicodeObject.New(numChars, 1114111);
    WriteChars(r.data, buf, numChars, 0x1_0000_0000);
  }

  /** The first-byte shortcut of `str_impl_kind_scalar` only ever reports what the full scan would. */
  lemma EarlyCheckAgrees(buf: seq<Byte>)
    requires |buf| > 0 && buf[0] > 239
    ensures AnyAbove(buf, 239)
  {
  }

  /**
    `str_impl_kind_scalar`: a four-byte lead (a byte above 239) selects four
    bytes per character, else a byte above 195 selects two, else one. The
    selection is the one the largest code point calls for (at least one byte
    per character), and no cast loses anything.
   */
  method StrImplKindScalar(buf: seq<Byte>, numChars: nat) returns (r: UnicodeObject)
    requires Valid(buf) && |buf| > 0 && numChars == NumChars(buf)
    ensures fresh(r) && fresh(r.data) && r.Valid() && r.data[r.length] == 0
    ensures r.Units() == Decode(buf)
    ensures var m := MaxOf(Decode(buf));
            r.maxChar == if m > 0xFFFF then 1114111 else if m > 0xFF then 65535 else 255
  {
    ghost var cps := Decode(buf);
    ghost var m := MaxOf(cps);
    ThresholdIff(buf, 239, 0x10000);
    ThresholdIff(buf, 195, 0x100);
    if buf[0] > 239 {
      EarlyCheckAgrees(buf);
      r := PyUnicodeFourByte(buf, numChars);
      NarrowLossless(cps, 0x1_0000_0000);
      return;
    }
    if AnyAbove(buf, 239) {
      r := PyUnicodeFourByte(buf, numChars);
      NarrowLossless(cps, 0x1_0000_0000);
    } else if AnyAbove(buf, 195) {
      r := PyUnicodeTwoByte(buf, numChars);
      NarrowLossless(cps, 0x10000);
    } else {
      r := PyUnicodeOneByte(buf, numChars);
      NarrowLossless(cps, 0x100);
    }
  }

  /**
    `unicode_from_str`: the empty string is the shared empty singleton (an
    object of length 0, created once as `PyUnicode_New(0, 255)`) and nothing
    is allocated; a string with as many code points as bytes is copied
    verbatim as ASCII; any other goes to `str_impl_kind_scalar`. Either way the
    object has the narrowest kind that holds every code point, its units are
    the code points in order, and encoding them again gives back `buf`.
   */
  method UnicodeFromStr(buf: seq<Byte>, empty: UnicodeObject) returns (r: UnicodeObject)
    requires Valid(buf)
    requires empty.Valid() && empty.length == 0
    ensures r.Valid() && r.Units() == Decode(buf) && Encode(r.Units()) == buf
    ensures buf == [] ==> r == empty
    ensures buf != [] ==> fresh(r) && fresh(r.data) && r.data[r.length] == 0
    ensures buf != [] ==> r.maxChar == MaxChar(KindFor(MaxOf(Decode(buf))))
  {
    if buf == [] {
      return empty;
    }
    var numChars := NumChars(buf);
    NumCharsDecode(buf);
    AsciiIff(buf);
    EncodeDecode(buf);
    if |buf| == numChars {
      AsciiDecodeIsIdentity(buf);
      r := PyUnicodeAscii(buf, numChars);
      assert buf[..numChars] == buf;
    } else {
      r := StrImplKindScalar(buf, numChars);
    }
  }

  /** "hello" is stored as ASCII. */
  lemma AsciiExample()
    ensures var s := [0x68, 0x65, 0x6C, 0x6C, 0x6F];
      Valid(s) && Decode(s) == s && KindFor(MaxOf(Decode(s))) == Ascii
  {
    var s: seq<Byte> := [0x68, 0x65, 0x6C, 0x6C, 0x6F];
    AsciiValid(s);
    AsciiIff(s);
  }

  /** "café" (U+00E9) is stored with one byte per character. */
  lemma OneByteExample()
    ensures var s := [0x63, 0x61, 0x66, 0xC3, 0xA9];
      Valid(s) && Decode(s) == [0x63, 0x61, 0x66, 0xE9] && KindFor(MaxOf(Decode(s))) == OneByte
  {
    var ascii: seq<Byte>, e: seq<Byte> := [0x63, 0x61, 0x66], [0xC3, 0xA9];
    AsciiValid(ascii);
    SingleChar(e);
    DecodeConcat(ascii, e);
    assert ascii + e == [0x63, 0x61, 0x66, 0xC3, 0xA9];
    assert DecodeChar(e) == 0xE9;
    assert Decode(ascii) + Decode(e) == [0x63, 0x61, 0x66, 0xE9];
    MaxOfIs([0x63, 0x61, 0x66, 0xE9], 0xE9, 3);
  }

  /** "中文" (U+4E2D U+6587) is stored with two bytes per character. */
  lemma TwoByteExample()
    ensures var s := [0xE4, 0xB8, 0xAD, 0xE6, 0x96, 0x87];
      Valid(s) && Decode(s) == [0x4E2D, 0x6587] && KindFor(MaxOf(Decode(s))) == TwoByte
  {
    var zhong: seq<Byte>, wen: seq<Byte> := [0xE4, 0xB8, 0xAD], [0xE6, 0x96, 0x87];
    SingleChar(zhong);
    SingleChar(wen);
    DecodeConcat(zhong, wen);
    assert zhong + wen == [0xE4, 0xB8, 0xAD, 0xE6, 0x96, 0x87];
    MaxOfIs([0x4E2D, 0x6587], 0x6587, 1);
  }

  /** "😀" (U+1F600) is stored with four bytes per character. */
  lemma FourByteExample()
    ensures var s := [0xF0, 0x9F, 0x98, 0x80];
      Valid(s) && Decode(s) == [0x1F600] && KindFor(MaxOf(Decode(s))) == FourByte
  {
    SingleChar([0xF0, 0x9F, 0x98, 0x80]);
    MaxOfIs([0x1F600], 0x1F600, 0);
  }
}
