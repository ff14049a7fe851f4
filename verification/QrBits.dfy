/** The bit buffer of the QR encoder: mode indicator, character count, data, terminator and
    padding (ISO/IEC 18004:2015, section 7.4), and the parser that reads it back. */
module QrBits {
  import opened Arithmetic
  import opened Gf256
  import opened Wrappers

  type Bit = b: int | 0 <= b < 2
  type Bits = seq<Bit>

  /** The last len bits of val, most significant first. */
  function BitsOf(val: nat, len: nat): (b: Bits)
    ensures |b| == len
  {
    if len == 0 then [] else BitsOf(val / 2, len - 1) + [val % 2]
  }

  function NumberOf(b: Bits): nat {
    if b == [] then 0 else 2 * NumberOf(b[..|b| - 1]) + b[|b| - 1]
  }

  function ZeroBits(n: nat): Bits {
    seq(n, _ => 0)
  }

  /** Eight bits of each byte. */
  function Unpack(bytes: seq<Byte>): (b: Bits)
    ensures |b| == 8 * |bytes|
  {
    if bytes == [] then [] else Unpack(bytes[..|bytes| - 1]) + BitsOf(bytes[|bytes| - 1], 8)
  }

  /** The bytes of a bit sequence of whole bytes. */
  function Pack(b: Bits): (bytes: seq<Byte>)
    requires |b| % 8 == 0
    ensures 8 * |bytes| == |b|
  {
    if b == [] then []
    else
      NumberOfByte(b[|b| - 8..]);
      Pack(b[..|b| - 8]) + [NumberOf(b[|b| - 8..])]
  }

  lemma {:induction false} NumberOfBelow(b: Bits)
    ensures NumberOf(b) < Pow2(|b|)
  {
    if b != [] {
      NumberOfBelow(b[..|b| - 1]);
    }
  }

  lemma NumberOfByte(b: Bits)
    requires |b| == 8
    ensures NumberOf(b) < 256
  {
    NumberOfBelow(b);
    assert Pow2(8) == 256;
  }

  lemma {:induction false} NumberOfBitsOf(val: nat, len: nat)
    requires val < Pow2(len)
    ensures NumberOf(BitsOf(val, len)) == val
  {
    if len > 0 {
      NumberOfBitsOf(val / 2, len - 1);
      var b := BitsOf(val, len);
      assert b[..len - 1] == BitsOf(val / 2, len - 1);
    }
  }

  lemma {:induction false} BitsOfNumberOf(b: Bits)
    ensures BitsOf(NumberOf(b), |b|) == b
  {
    if b != [] {
      BitsOfNumberOf(b[..|b| - 1]);
    }
  }

  lemma {:induction false} UnpackPack(b: Bits)
    requires |b| % 8 == 0
    ensures Unpack(Pack(b)) == b
  {
    hide BitsOf, NumberOf;
    if b != [] {
      var n := |b| - 8;
      UnpackPack(b[..n]);
      PackLast(b[..n], b[n..]);
      assert b == b[..n] + b[n..];
      UnpackLast(Pack(b[..n]), NumberOf(b[n..]));
      BitsOfNumberOf(b[n..]);
    }
  }

  lemma NumberOfBitsOfByte(byte: Byte)
    ensures NumberOf(BitsOf(byte, 8)) == byte
  {
    assert Pow2(8) == 256;
    NumberOfBitsOf(byte, 8);
  }

  lemma {:induction false} PackUnpack(bytes: seq<Byte>)
    ensures Pack(Unpack(bytes)) == bytes
  {
    hide BitsOf, NumberOf;
    if bytes != [] {
      var n := |bytes| - 1;
      PackUnpack(bytes[..n]);
      var b := Unpack(bytes);
      NumberOfBitsOfByte(bytes[n]);
      assert b[..|b| - 8] == Unpack(bytes[..n]);
      assert b[|b| - 8..] == BitsOf(bytes[n], 8);
    }
  }

  lemma {:induction false} UnpackAt(bytes: seq<Byte>, t: nat)
    requires t < 8 * |bytes|
    ensures Unpack(bytes)[t] == BitsOf(bytes[t / 8], 8)[t % 8]
  {
    hide BitsOf;
    var n := |bytes| - 1;
    if t < 8 * n {
      UnpackAt(bytes[..n], t);
    } else {
      assert t / 8 == n && t % 8 == t - 8 * n;
    }
  }

  // ----- Appending bits ----------------------------------------------------------------

  lemma BitsOfStep(val: nat, len: nat, i: nat)
    requires i < len
    ensures BitsOf(ShiftRight(val, i), len - i) == BitsOf(ShiftRight(val, i + 1), len - i - 1) + [ShiftRight(val, i) % 2]
  {
    ShiftRightOnce(val, i);
  }

  method AppendBits(bb: Bits, val: nat, len: nat) returns (r: Bits)
    ensures r == bb + BitsOf(val, len)
  {
    r := bb;
    var i := len;
    while i > 0
      invariant 0 <= i <= len
      invariant r == bb + BitsOf(ShiftRight(val, i), len - i)
    {
      i := i - 1;
      BitsOfStep(val, len, i);
      r := r + [ShiftRight(val, i) % 2];
    }
  }

  // ----- The data stream ----------------------------------------------------------------

  /** Bits of the character count: 8 up to version 9, then 16. */
  function CountBits(ver: int): nat {
    if ver <= 9 then 8 else 16
  }

  function Header(bytes: seq<Byte>, ver: int): Bits {
    BitsOf(4, 4) + BitsOf(|bytes|, CountBits(ver)) + Unpack(bytes)
  }

  /** The alternating padding bytes 0xEC, 0x11, ..., the first one given. */
  function Padding(n: nat, first: Byte): (p: seq<Byte>)
    requires first == 0xEC || first == 0x11
    ensures |p| == n
  {
    if n == 0 then [] else [first] + Padding(n - 1, 0xEC + 0x11 - first)
  }

  /** Reads a data stream: mode, count, bytes. None unless it is byte mode and long enough. */
  function Parse(b: Bits, ver: int): Option<seq<Byte>> {
    var c := CountBits(ver);
    if |b| < 4 + c || NumberOf(b[..4]) != 4 then None
    else
      var n := NumberOf(b[4..4 + c]);
      if |b| < 4 + c + 8 * n then None else Some(Pack(b[4 + c..4 + c + 8 * n]))
  }

  /** Whatever follows the header, the parser finds the bytes. */
  lemma ParseHeader(bytes: seq<Byte>, ver: int, rest: Bits)
    requires |bytes| < Pow2(CountBits(ver))
    ensures Parse(Header(bytes, ver) + rest, ver) == Some(bytes)
  {
    hide BitsOf, NumberOf, Pack, Unpack, Pow2, CountBits;
    var c := CountBits(ver);
    var b := Header(bytes, ver) + rest;
    ModeIndicator();
    NumberOfBitsOf(|bytes|, c);
    PackUnpack(bytes);
    assert b[..4] == BitsOf(4, 4);
    assert b[4..4 + c] == BitsOf(|bytes|, c);
    assert b[4 + c..4 + c + 8 * |bytes|] == Unpack(bytes);
  }

  lemma ModeIndicator()
    ensures NumberOf(BitsOf(4, 4)) == 4
  {
    assert Pow2(4) == 16;
    NumberOfBitsOf(4, 4);
  }

  /** Zeros up to the next whole byte. */
  function ToByte(len: nat): (n: nat)
    ensures (len + n) % 8 == 0 && n < 8
  {
    (8 - len % 8) % 8
  }

  lemma ToByteFits(len: nat, capacity: nat)
    requires len <= capacity && capacity % 8 == 0
    ensures len + ToByte(len) <= capacity && (capacity - (len + ToByte(len))) % 8 == 0
  {
    var a := len + ToByte(len);
    assert a == 8 * (a / 8) && capacity == 8 * (capacity / 8);
  }

  /** At most four zeros, as many as fit. */
  function Terminator(len: nat, capacity: nat): (n: nat)
    requires len <= capacity
    ensures len + n <= capacity
  {
    if capacity - len < 4 then capacity - len else 4
  }

  /** The header, the terminator, zeros up to a whole byte, and padding up to the capacity. */
  function DataStream(bytes: seq<Byte>, ver: int, capacity: nat): (b: Bits)
    requires |Header(bytes, ver)| <= capacity && capacity % 8 == 0
    ensures |b| == capacity
  {
    var h := Header(bytes, ver);
    var t := h + ZeroBits(Terminator(|h|, capacity));
    ToByteFits(|t|, capacity);
    var a := t + ZeroBits(ToByte(|t|));
    a + Unpack(Padding((capacity - |a|) / 8, 0xEC))
  }

  lemma ParseDataStream(bytes: seq<Byte>, ver: int, capacity: nat)
    requires |Header(bytes, ver)| <= capacity && capacity % 8 == 0
    requires |bytes| < Pow2(CountBits(ver))
    ensures Parse(DataStream(bytes, ver, capacity), ver) == Some(bytes)
  {
    hide Header, Parse, Unpack, ToByte, Terminator;
    var h := Header(bytes, ver);
    var t := h + ZeroBits(Terminator(|h|, capacity));
    ToByteFits(|t|, capacity);
    var a := t + ZeroBits(ToByte(|t|));
    var p := Unpack(Padding((capacity - |a|) / 8, 0xEC));
    var rest := t[|h|..] + a[|t|..] + p;
    assert DataStream(bytes, ver, capacity) == h + rest;
    ParseHeader(bytes, ver, rest);
  }

  lemma {:induction false} UnpackFirst(byte: Byte, bytes: seq<Byte>)
    ensures Unpack([byte] + bytes) == BitsOf(byte, 8) + Unpack(bytes)
  {
    hide BitsOf, Unpack;
    var all := [byte] + bytes;
    UnpackNone();
    if bytes == [] {
      UnpackLast([], byte);
      assert all == [] + [byte];
    } else {
      var n := |bytes| - 1;
      UnpackFirst(byte, bytes[..n]);
      assert all == ([byte] + bytes[..n]) + [bytes[n]];
      assert bytes == bytes[..n] + [bytes[n]];
      UnpackLast([byte] + bytes[..n], bytes[n]);
      UnpackLast(bytes[..n], bytes[n]);
    }
  }

  lemma UnpackNone()
    ensures Unpack([]) == []
  {
  }

  lemma {:induction false} BitsOfZero(n: nat)
    ensures BitsOf(0, n) == ZeroBits(n)
  {
    if n > 0 {
      BitsOfZero(n - 1);
    }
  }

  /** `pad ^= 0xEC ^ 0x11` switches between the two padding bytes. */
  lemma PadAlternates(pad: Byte)
    requires pad == 0xEC || pad == 0x11
    ensures Xor(pad, Xor(0xEC, 0x11)) == 0xEC + 0x11 - pad
  {
    hide Xor;
    XorCommutes(0xEC, 0x11);
    XorAssociates(0xEC, 0xEC, 0x11);
    XorAssociates(0x11, 0x11, 0xEC);
    XorSelf(0xEC);
    XorSelf(0x11);
    XorZero(0xEC);
    XorZero(0x11);
  }

  method PadTo(bb: Bits, capacity: nat) returns (r: Bits)
    requires |bb| <= capacity && (capacity - |bb|) % 8 == 0
    ensures r == bb + Unpack(Padding((capacity - |bb|) / 8, 0xEC))
  {
    hide Xor, Unpack, BitsOf;
    r := bb;
    var pad: Byte := 0xEC;
    while |r| < capacity
      invariant |r| <= capacity && (capacity - |r|) % 8 == 0
      invariant pad == 0xEC || pad == 0x11
      invariant r + Unpack(Padding((capacity - |r|) / 8, pad)) == bb + Unpack(Padding((capacity - |bb|) / 8, 0xEC))
    {
      PadAlternates(pad);
      UnpackFirst(pad, Padding((capacity - |r|) / 8 - 1, 0xEC + 0x11 - pad));
      r := AppendBits(r, pad, 8);
      pad := Xor(pad, Xor(0xEC, 0x11));
    }
    assert Padding((capacity - |r|) / 8, pad) == [];
    assert Unpack([]) == [];
  }

  lemma NumberOfLast(b: Bits, bit: Bit)
    ensures NumberOf(b + [bit]) == 2 * NumberOf(b) + bit
  {
    assert (b + [bit])[..|b|] == b;
  }

  lemma PackLast(b: Bits, byte: Bits)
    requires |b| % 8 == 0 && |byte| == 8
    ensures NumberOf(byte) < 256 && Pack(b + byte) == Pack(b) + [NumberOf(byte)]
  {
    hide NumberOf;
    NumberOfByte(byte);
    assert (b + byte)[..|b|] == b && (b + byte)[|b|..] == byte;
  }

  method PackByte(bits: Bits) returns (b: Byte)
    requires |bits| == 8
    ensures b == NumberOf(bits)
  {
    hide NumberOf;
    var z: nat := 0;
    var j := 0;
    NumberOfNone();
    while j < 8
      invariant 0 <= j <= 8
      invariant z == NumberOf(bits[..j])
    {
      assert bits[..j + 1] == bits[..j] + [bits[j]];
      NumberOfLast(bits[..j], bits[j]);
      z := 2 * z + bits[j];
      j := j + 1;
    }
    assert bits[..8] == bits;
    NumberOfByte(bits);
    b := z;
  }

  method PackBits(bb: Bits) returns (codewords: seq<Byte>)
    requires |bb| % 8 == 0
    ensures codewords == Pack(bb)
  {
    hide Pack, NumberOf;
    codewords := [];
    var i := 0;
    PackNone();
    while i < |bb|
      invariant 0 <= i <= |bb| && i % 8 == 0
      invariant codewords == Pack(bb[..i])
    {
      var b := PackByte(bb[i..i + 8]);
      PackLast(bb[..i], bb[i..i + 8]);
      assert bb[..i + 8] == bb[..i] + bb[i..i + 8];
      codewords := codewords + [b];
      i := i + 8;
    }
    assert bb[..i] == bb;
  }

  lemma PackNone()
    ensures Pack([]) == []
  {
  }

  lemma NumberOfNone()
    ensures NumberOf([]) == 0
  {
  }

  /** The data codewords: byte mode, count, bytes, terminator, alignment and padding. */
  method EncodeData(bytes: seq<Byte>, ver: int, capacity: nat) returns (codewords: seq<Byte>)
    requires |Header(bytes, ver)| <= capacity && capacity % 8 == 0
    ensures Unpack(codewords) == DataStream(bytes, ver, capacity)
    ensures 8 * |codewords| == capacity
  {
    hide Unpack, BitsOf, Pack, ToByte, Terminator;
    var bb := AppendBits([], 4, 4);
    bb := AppendBits(bb, |bytes|, CountBits(ver));
    ghost var start := bb;
    var i := 0;
    assert Unpack(bytes[..0]) == [];
    while i < |bytes|
      invariant 0 <= i <= |bytes|
      invariant bb == start + Unpack(bytes[..i])
    {
      UnpackLast(bytes[..i], bytes[i]);
      assert bytes[..i + 1] == bytes[..i] + [bytes[i]];
      bb := AppendBits(bb, bytes[i], 8);
      i := i + 1;
    }
    assert bytes[..i] == bytes;
    assert bb == Header(bytes, ver);
    BitsOfZero(Terminator(|bb|, capacity));
    bb := AppendBits(bb, 0, Terminator(|bb|, capacity));
    ToByteFits(|bb|, capacity);
    BitsOfZero(ToByte(|bb|));
    bb := AppendBits(bb, 0, ToByte(|bb|));
    bb := PadTo(bb, capacity);
    codewords := PackBits(bb);
    UnpackPack(bb);
  }

  lemma UnpackLast(bytes: seq<Byte>, byte: Byte)
    ensures Unpack(bytes + [byte]) == Unpack(bytes) + BitsOf(byte, 8)
  {
    assert (bytes + [byte])[..|bytes|] == bytes;
  }
}
