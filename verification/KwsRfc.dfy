/** What bytes are a frame by section 5.2 of RFC 6455, said of single bytes and bits, and that this is what is sent and what is
    read. */
module KwsRfc {
  import opened Octets
  import opened KwsFrames

  /** Bit i, counted from the lowest. */
  function Bit(x: nat, i: nat): nat {
    if i == 0 then x % 2 else Bit(x / 2, i - 1)
  }

  /** Each bit of x is set just if that bit of a and that bit of b differ. */
  ghost predicate IsXor(x: Byte, a: Byte, b: Byte) {
    forall i | 0 <= i < 8 :: Bit(x, i) == 1 <==> Bit(a, i) != Bit(b, i)
  }

  lemma {:induction false} XorBit(a: nat, b: nat, bits: nat, i: nat)
    requires i < bits
    ensures Bit(XorBits(a, b, bits), i) == 1 <==> Bit(a, i) != Bit(b, i)
  {
    var x := XorBits(a, b, bits);
    assert x % 2 == (if a % 2 == b % 2 then 0 else 1) && x / 2 == XorBits(a / 2, b / 2, bits - 1);
    if i > 0 { XorBit(a / 2, b / 2, bits - 1, i - 1); }
  }

  /** Masking is the exclusive or of bytes. */
  lemma XorIsXor(a: Byte, b: Byte)
    ensures IsXor(Xor(a, b), a, b)
  {
    hide XorBits, Bit;
    forall i | 0 <= i < 8 ensures Bit(Xor(a, b), i) == 1 <==> Bit(a, i) != Bit(b, i) { XorBit(a, b, 8, i); }
  }

  lemma {:induction false} SameBits(x: nat, y: nat, bits: nat)
    requires x < Power2(bits) && y < Power2(bits) && forall i | 0 <= i < bits :: Bit(x, i) == Bit(y, i)
    ensures x == y
    decreases bits
  {
    if bits > 0 {
      forall i | 0 <= i < bits - 1 ensures Bit(x / 2, i) == Bit(y / 2, i) { assert Bit(x, i + 1) == Bit(y, i + 1); }
      SameBits(x / 2, y / 2, bits - 1);
      assert Bit(x, 0) == x % 2 && Bit(y, 0) == y % 2;
    }
  }

  lemma {:induction false} BitIsSmall(x: nat, i: nat)
    ensures Bit(x, i) < 2
  {
    if i > 0 { BitIsSmall(x / 2, i - 1); }
  }

  /** There is just one byte with these bits. */
  lemma OnlyOneXor(x: Byte, y: Byte, a: Byte, b: Byte)
    requires IsXor(x, a, b) && IsXor(y, a, b)
    ensures x == y
  {
    hide Bit;
    assert Power2(8) == 256;
    forall i | 0 <= i < 8 ensures Bit(x, i) == Bit(y, i) {
      BitIsSmall(x, i);
      BitIsSmall(y, i);
    }
    SameBits(x, y, 8);
  }

  function ExtendedLength(l: nat): nat {
    if l == 127 then 8 else if l == 126 then 2 else 0
  }

  /** The first size bytes of s are the data frame f. The reserved bits may be anything, and the length may be in any of its
      three forms. */
  ghost predicate IsFrame(s: seq<Byte>, f: Frame, size: nat) {
    && 2 <= size <= |s|
    && var l := s[1] % 128; var h := 2 + ExtendedLength(l) + if s[1] >= 128 then 4 else 0;
    && size == h + |f.payload|
    && (f.fin <==> s[0] >= 128) && f.opcode == s[0] % 16 && f.opcode in {0, 1, 2, 9, 10}
    && (l < 126 ==> |f.payload| == l)
    && (l == 126 ==> |f.payload| == s[2] as int * 0x100 + s[3])
    && (l == 127 ==> |f.payload| == LengthOf8(s[2..10]) < 0x8000_0000_0000_0000)
    && f.key == (if s[1] >= 128 then s[h - 4..h] else [])
    && forall i | 0 <= i < |f.payload| ::
      if f.key == [] then f.payload[i] == s[h + i] else IsXor(f.payload[i], s[h + i], f.key[i % 4])
  }

  function LengthOf8(d: seq<Byte>): (n: nat)
    requires |d| == 8
    ensures n < 0x1_0000_0000_0000_0000
  {
    d[0] as int * 0x100_0000_0000_0000 + d[1] as int * 0x1_0000_0000_0000 + d[2] as int * 0x100_0000_0000 + d[3] as int * 0x1_0000_0000
    + d[4] as int * 0x100_0000 + d[5] as int * 0x1_0000 + d[6] as int * 0x100 + d[7]
  }

  lemma OneMoreDigit(s: seq<Byte>, n: nat)
    requires n < |s|
    ensures FromBigEndian(s[..n + 1]) == FromBigEndian(s[..n]) * 256 + s[n]
  {
    assert s[..n + 1][..n] == s[..n];
  }

  /** Network byte order: the first byte counts most. */
  lemma NetworkOrder(s: seq<Byte>)
    ensures |s| == 2 ==> FromBigEndian(s) == s[0] as int * 0x100 + s[1]
    ensures |s| == 8 ==> FromBigEndian(s) == LengthOf8(s)
  {
    hide FromBigEndian;
    assert FromBigEndian(s[..0]) == 0 by { Empty(); assert s[..0] == []; }
    assert s[..|s|] == s;
    if |s| == 2 || |s| == 8 {
      OneMoreDigit(s, 0);
      OneMoreDigit(s, 1);
    }
    if |s| == 8 {
      OneMoreDigit(s, 2);
      OneMoreDigit(s, 3);
      OneMoreDigit(s, 4);
      OneMoreDigit(s, 5);
      OneMoreDigit(s, 6);
      OneMoreDigit(s, 7);
    }
  }

  lemma Empty()
    ensures FromBigEndian([]) == 0
  {
  }

  /** A reader sees a frame exactly where there is one, and sees it as it is. */
  lemma ReadsFrames(s: seq<Byte>, f: Frame, size: nat)
    ensures FrameAt(s) == Some((f, size)) <==> IsFrame(s, f, size)
  {
    hide IsXor, FromBigEndian, Masked, LengthOf8;
    if |s| >= 4 && s[1] % 128 == 126 { NetworkOrder(s[2..4]); }
    if |s| >= 10 && s[1] % 128 == 127 { NetworkOrder(s[2..10]); }
    if FrameAt(s) == Some((f, size)) {
      ReadIsFrame(s, f, size);
    }
    if IsFrame(s, f, size) {
      FrameIsRead(s, f, size);
    }
  }

  lemma ReadIsFrame(s: seq<Byte>, f: Frame, size: nat)
    requires FrameAt(s) == Some((f, size))
    requires |s| >= 4 && s[1] % 128 == 126 ==> FromBigEndian(s[2..4]) == s[2] as int * 0x100 + s[3]
    requires |s| >= 10 && s[1] % 128 == 127 ==> FromBigEndian(s[2..10]) == LengthOf8(s[2..10])
    ensures IsFrame(s, f, size)
  {
    hide IsXor, FromBigEndian, Xor, LengthOf8;
    var h := HeaderSize(s);
    var p := s[h..size];
    assert f.payload == Masked(f.key, p);
    forall i | 0 <= i < |f.payload|
      ensures if f.key == [] then f.payload[i] == s[h + i] else IsXor(f.payload[i], s[h + i], f.key[i % 4])
    {
      assert p[i] == s[h + i];
      if f.key != [] { XorIsXor(p[i], f.key[i % 4]); }
    }
  }

  lemma FrameIsRead(s: seq<Byte>, f: Frame, size: nat)
    requires IsFrame(s, f, size)
    requires |s| >= 4 && s[1] % 128 == 126 ==> FromBigEndian(s[2..4]) == s[2] as int * 0x100 + s[3]
    requires |s| >= 10 && s[1] % 128 == 127 ==> FromBigEndian(s[2..10]) == LengthOf8(s[2..10])
    ensures FrameAt(s) == Some((f, size))
  {
    hide IsXor, FromBigEndian, Xor, LengthOf8;
    var h := HeaderSize(s);
    var p := s[h..size];
    var m := Masked(f.key, p);
    assert |m| == |f.payload|;
    forall i | 0 <= i < |m| ensures m[i] == f.payload[i] {
      assert p[i] == s[h + i];
      if f.key != [] {
        XorIsXor(p[i], f.key[i % 4]);
        OnlyOneXor(m[i], f.payload[i], p[i], f.key[i % 4]);
      }
    }
    assert m == f.payload;
  }

  /** What is sent is that frame, with no reserved bit and the length in its shortest form. */
  lemma WritesFrames(f: Frame, rest: seq<Byte>)
    requires Sendable(f)
    ensures IsFrame(Wire(f) + rest, f, |Wire(f)|)
    ensures Wire(f)[0] / 16 % 8 == 0
    ensures var l := Wire(f)[1] % 128; (l == 126 ==> |f.payload| >= 126) && (l == 127 ==> |f.payload| >= 0x1_0000)
  {
    hide FrameAt, IsFrame;
    WireReadsBack(f, rest);
    ReadsFrames(Wire(f) + rest, f, |Wire(f)|);
  }
}
