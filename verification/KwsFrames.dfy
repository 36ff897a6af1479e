/** kws.c: WebSocket frames as byte strings (sections 5.2 to 5.4 of RFC 6455), apart from how they are read and written. */
module KwsFrames {
  import opened Octets

  const CONTINUATION := 0
  const TEXT := 1
  const BINARY := 2
  const CLOSE := 8
  const PING := 9
  const PONG := 10
  const INVALID := 15

  function Power2(n: nat): nat {
    if n == 0 then 1 else 2 * Power2(n - 1)
  }

  /** The exclusive or of the lowest bits of a and b. */
  function XorBits(a: nat, b: nat, bits: nat): (r: nat)
    ensures r < Power2(bits)
  {
    if bits == 0 then 0 else 2 * XorBits(a / 2, b / 2, bits - 1) + if a % 2 == b % 2 then 0 else 1
  }

  lemma {:induction false} XorBitsTwice(a: nat, b: nat, bits: nat)
    requires a < Power2(bits)
    ensures XorBits(XorBits(a, b, bits), b, bits) == a
  {
    if bits > 0 {
      var x := XorBits(a, b, bits);
      var h := XorBits(a / 2, b / 2, bits - 1);
      var l := if a % 2 == b % 2 then 0 else 1;
      assert x == 2 * h + l;
      assert x / 2 == h && x % 2 == l;
      XorBitsTwice(a / 2, b / 2, bits - 1);
    }
  }

  function Xor(a: Byte, b: Byte): Byte {
    assert Power2(8) == 256;
    XorBits(a, b, 8)
  }

  lemma XorTwice(a: Byte, b: Byte)
    ensures Xor(Xor(a, b), b) == a
  {
    assert Power2(8) == 256;
    XorBitsTwice(a, b, 8);
  }

  /** A key of no bytes is no masking. */
  datatype Frame = Frame(fin: bool, opcode: int, key: seq<Byte>, payload: seq<Byte>)

  predicate CarriesData(opcode: int) {
    opcode == CONTINUATION || opcode == TEXT || opcode == BINARY || opcode == PING || opcode == PONG
  }

  predicate Sendable(f: Frame) {
    CarriesData(f.opcode) && (f.key == [] || |f.key| == 4) && |f.payload| < 0x8000_0000_0000_0000
  }

  function MaskByte(key: seq<Byte>, i: nat, b: Byte): Byte
    requires key == [] || |key| == 4
  {
    if key == [] then b else Xor(b, key[i % 4])
  }

  function Masked(key: seq<Byte>, p: seq<Byte>): (m: seq<Byte>)
    requires key == [] || |key| == 4
    ensures |m| == |p| && forall i | 0 <= i < |p| :: m[i] == MaskByte(key, i, p[i])
  {
    seq(|p|, i requires 0 <= i < |p| => MaskByte(key, i, p[i]))
  }

  lemma MaskedTwice(key: seq<Byte>, p: seq<Byte>)
    requires key == [] || |key| == 4
    ensures Masked(key, Masked(key, p)) == p
  {
    forall i | 0 <= i < |p| ensures MaskByte(key, i, MaskByte(key, i, p[i])) == p[i] {
      if key != [] { XorTwice(p[i], key[i % 4]); }
    }
  }

  /** Network byte order. */
  function BigEndian(n: nat, width: nat): (s: seq<Byte>)
    ensures |s| == width
  {
    if width == 0 then [] else BigEndian(n / 256, width - 1) + [n % 256]
  }

  function FromBigEndian(s: seq<Byte>): nat {
    if s == [] then 0 else FromBigEndian(s[..|s| - 1]) * 256 + s[|s| - 1]
  }

  function Power256(width: nat): nat {
    if width == 0 then 1 else 256 * Power256(width - 1)
  }

  lemma {:induction false} BigEndianBack(n: nat, width: nat)
    requires n < Power256(width)
    ensures FromBigEndian(BigEndian(n, width)) == n
  {
    if width > 0 {
      BigEndianBack(n / 256, width - 1);
      assert BigEndian(n, width)[..width - 1] == BigEndian(n / 256, width - 1);
    }
  }

  /** A 64 bit length is taken as signed. */
  function Signed64(n: nat): int {
    if n < 0x8000_0000_0000_0000 then n else n - 0x1_0000_0000_0000_0000
  }

  function ShortLength(n: nat): Byte {
    if n < 126 then n else if n < 0x10000 then 126 else 127
  }

  function LongLength(n: nat): seq<Byte> {
    if n < 126 then [] else if n < 0x10000 then BigEndian(n, 2) else BigEndian(n, 8)
  }

  /** A frame on the wire with its length in the shortest form. */
  function Wire(f: Frame): seq<Byte>
    requires Sendable(f)
  {
    [f.opcode + if f.fin then 128 else 0, ShortLength(|f.payload|) + if f.key == [] then 0 else 128]
    + LongLength(|f.payload|) + f.key + Masked(f.key, f.payload)
  }

  function Opcode(s: seq<Byte>): int
    requires |s| >= 2
  {
    s[0] % 16
  }

  predicate Fin(s: seq<Byte>)
    requires |s| >= 2
  {
    s[0] >= 128
  }

  predicate HasKey(s: seq<Byte>)
    requires |s| >= 2
  {
    s[1] >= 128
  }

  function LengthSize(s: seq<Byte>): nat
    requires |s| >= 2
  {
    if s[1] % 128 == 127 then 8 else if s[1] % 128 == 126 then 2 else 0
  }

  function HeaderSize(s: seq<Byte>): nat
    requires |s| >= 2
  {
    2 + LengthSize(s) + if HasKey(s) then 4 else 0
  }

  function PayloadLength(s: seq<Byte>): int
    requires |s| >= 2 && |s| >= HeaderSize(s)
  {
    if LengthSize(s) == 8 then Signed64(FromBigEndian(s[2..10]))
    else if LengthSize(s) == 2 then FromBigEndian(s[2..4])
    else s[1] % 128
  }

  function Key(s: seq<Byte>): (k: seq<Byte>)
    requires |s| >= 2 && |s| >= HeaderSize(s)
    ensures k == [] || |k| == 4
  {
    if HasKey(s) then s[2 + LengthSize(s)..HeaderSize(s)] else []
  }

  /** The data frame at the beginning of a byte string and how many bytes it takes. */
  function FrameAt(s: seq<Byte>): (r: Option<(Frame, nat)>)
    ensures r.Some? ==> 2 <= r.value.1 <= |s|
  {
    if |s| < 2 || !CarriesData(Opcode(s)) || |s| < HeaderSize(s) || PayloadLength(s) < 0
       || |s| < HeaderSize(s) + PayloadLength(s)
    then None
    else
      var size := HeaderSize(s) + PayloadLength(s);
      Some((Frame(Fin(s), Opcode(s), Key(s), Masked(Key(s), s[HeaderSize(s)..size])), size))
  }

  /** What is sent can be read: every opcode, key and payload length. */
  lemma WireReadsBack(f: Frame, rest: seq<Byte>)
    requires Sendable(f)
    ensures FrameAt(Wire(f) + rest) == Some((f, |Wire(f)|))
  {
    hide Masked, FromBigEndian, LongLength, CarriesData;
    var s := Wire(f) + rest;
    var n := |f.payload|;
    WireLayout(f, rest);
    WireLength(n);
    MaskedTwice(f.key, f.payload);
  }

  /** Where the parts of a frame stand. */
  lemma WireLayout(f: Frame, rest: seq<Byte>)
    requires Sendable(f)
    ensures var s := Wire(f) + rest; var n := |f.payload|; var long := LongLength(n);
      && |Wire(f)| == 2 + |long| + |f.key| + n && |s| >= |Wire(f)|
      && Opcode(s) == f.opcode && Fin(s) == f.fin && HasKey(s) == (f.key != []) && s[1] % 128 == ShortLength(n)
      && LengthSize(s) == |long| && HeaderSize(s) == 2 + |long| + |f.key| && s[2..2 + |long|] == long
      && Key(s) == f.key && s[HeaderSize(s)..HeaderSize(s) + n] == Masked(f.key, f.payload)
  {
    hide Masked, FromBigEndian, BigEndian;
    var n := |f.payload|;
    var head: seq<Byte> := [f.opcode + if f.fin then 128 else 0, ShortLength(n) + if f.key == [] then 0 else 128];
    Parts(head, LongLength(n), f.key, Masked(f.key, f.payload), rest);
  }

  lemma Parts(a: seq<Byte>, b: seq<Byte>, c: seq<Byte>, d: seq<Byte>, e: seq<Byte>)
    ensures var s := a + b + c + d + e; var i := |a|; var j := i + |b|; var k := j + |c|;
      s[..i] == a && s[i..j] == b && s[j..k] == c && s[k..k + |d|] == d
  {
  }

  lemma WireLength(n: nat)
    requires n < 0x8000_0000_0000_0000
    ensures n >= 126 ==> FromBigEndian(LongLength(n)) == n
  {
    assert Power256(2) == 0x10000;
    assert Power256(8) == 256 * 256 * 256 * 256 * 256 * 256 * Power256(2);
    if 126 <= n < 0x10000 { BigEndianBack(n, 2); }
    if 0x10000 <= n { BigEndianBack(n, 8); }
  }

  /** A message as it is handed to the caller, and the bytes behind it. */
  datatype Message = Message(opcode: int, body: seq<Byte>, rest: seq<Byte>)

  /** Whether more fragments are awaited after a frame. */
  function Awaiting(frag: bool, f: Frame): bool {
    if !f.fin && f.opcode != CONTINUATION then true
    else if f.fin && f.opcode == CONTINUATION then false
    else frag
  }

  /** Frames are put together until no fragment is awaited. The opcode is that of the last frame. */
  function Reassembled(s: seq<Byte>, frag: bool, body: seq<Byte>): Option<Message>
    decreases |s|
  {
    match FrameAt(s)
    case None => None
    case Some((f, size)) =>
      if Awaiting(frag, f) then Reassembled(s[size..], true, body + f.payload)
      else Some(Message(f.opcode, body + f.payload, s[size..]))
  }

  /** Every frame of the message fills the first fetch of 9 bytes or has nothing behind it. */
  predicate Calm(s: seq<Byte>, frag: bool)
    decreases |s|
  {
    match FrameAt(s)
    case None => true
    case Some((f, size)) => (size >= 9 || size == |s|) && (Awaiting(frag, f) ==> Calm(s[size..], true))
  }

  predicate AllSendable(fs: seq<Frame>) {
    forall i | 0 <= i < |fs| :: Sendable(fs[i])
  }

  function WireAll(fs: seq<Frame>): seq<Byte>
    requires AllSendable(fs)
  {
    if fs == [] then [] else Wire(fs[0]) + WireAll(fs[1..])
  }

  function PayloadAll(fs: seq<Frame>): seq<Byte> {
    if fs == [] then [] else fs[0].payload + PayloadAll(fs[1..])
  }

  /** Continuations up to the one that ends the message. */
  predicate Continues(fs: seq<Frame>) {
    fs != [] && forall i | 0 <= i < |fs| :: fs[i].opcode == CONTINUATION && fs[i].fin == (i == |fs| - 1)
  }

  /** A text or binary message in fragments. */
  predicate Fragments(fs: seq<Frame>) {
    |fs| >= 2 && (fs[0].opcode == TEXT || fs[0].opcode == BINARY) && !fs[0].fin && Continues(fs[1..])
  }

  lemma {:induction false} ContinuationsReassemble(fs: seq<Frame>, body: seq<Byte>, rest: seq<Byte>)
    requires AllSendable(fs) && Continues(fs)
    ensures Reassembled(WireAll(fs) + rest, true, body) == Some(Message(CONTINUATION, body + PayloadAll(fs), rest))
    ensures (forall i | 0 <= i < |fs| :: |Wire(fs[i])| >= 9) ==> Calm(WireAll(fs) + rest, true)
  {
    var f := fs[0];
    var more := WireAll(fs[1..]) + rest;
    assert WireAll(fs) + rest == Wire(f) + more;
    WireReadsBack(f, more);
    assert (Wire(f) + more)[|Wire(f)|..] == more;
    if |fs| > 1 {
      ContinuationsReassemble(fs[1..], body + f.payload, rest);
      assert body + f.payload + PayloadAll(fs[1..]) == body + PayloadAll(fs);
    } else {
      assert more == rest && PayloadAll(fs) == f.payload;
    }
  }

  /** Section 5.4 of RFC 6455: the fragments of a message give their concatenation. */
  lemma FragmentsReassemble(fs: seq<Frame>, rest: seq<Byte>)
    requires AllSendable(fs) && Fragments(fs)
    ensures Reassembled(WireAll(fs) + rest, false, []) == Some(Message(CONTINUATION, PayloadAll(fs), rest))
    ensures (forall i | 0 <= i < |fs| :: |Wire(fs[i])| >= 9) ==> Calm(WireAll(fs) + rest, false)
  {
    var f := fs[0];
    var more := WireAll(fs[1..]) + rest;
    assert WireAll(fs) + rest == Wire(f) + more;
    WireReadsBack(f, more);
    assert (Wire(f) + more)[|Wire(f)|..] == more;
    ContinuationsReassemble(fs[1..], f.payload, rest);
    assert [] + f.payload == f.payload;
  }

  /** An unfragmented frame is a message of its own. */
  lemma OneFrameIsAMessage(f: Frame, rest: seq<Byte>)
    requires Sendable(f) && f.fin
    ensures Reassembled(Wire(f) + rest, false, []) == Some(Message(f.opcode, f.payload, rest))
    ensures Calm(Wire(f) + rest, false) <==> |Wire(f)| >= 9 || rest == []
  {
    WireReadsBack(f, rest);
    assert (Wire(f) + rest)[|Wire(f)|..] == rest;
    assert [] + f.payload == f.payload;
  }

  /** A control frame between two fragments is not told from them: its payload becomes a part of the message. */
  lemma PingIsMixedIn(first: Frame, ping: Frame, last: Frame, rest: seq<Byte>)
    requires Sendable(first) && Sendable(ping) && Sendable(last) && first.opcode == TEXT && !first.fin
    requires (ping.opcode == PING || ping.opcode == PONG) && ping.fin && last.opcode == CONTINUATION && last.fin
    ensures Reassembled(Wire(first) + (Wire(ping) + (Wire(last) + rest)), false, [])
         == Some(Message(CONTINUATION, first.payload + ping.payload + last.payload, rest))
  {
    hide Wire, FrameAt;
    var third := Wire(last) + rest;
    var second := Wire(ping) + third;
    NextFrame(first, second, false, []);
    assert [] + first.payload == first.payload;
    NextFrame(ping, third, true, first.payload);
    NextFrame(last, rest, true, first.payload + ping.payload);
  }

  /** One round of reassembling. */
  lemma NextFrame(f: Frame, rest: seq<Byte>, frag: bool, body: seq<Byte>)
    requires Sendable(f)
    ensures var awaiting := if !f.fin && f.opcode != 0 then true else if f.fin && f.opcode == 0 then false else frag;
      Reassembled(Wire(f) + rest, frag, body)
      == if awaiting then Reassembled(rest, true, body + f.payload) else Some(Message(f.opcode, body + f.payload, rest))
  {
    hide Wire, FrameAt;
    WireReadsBack(f, rest);
    assert (Wire(f) + rest)[|Wire(f)|..] == rest;
  }

  /** One frame that ends its message, or a first fragment and what continues it. */
  predicate IsMessage(fs: seq<Frame>)
    ensures IsMessage(fs) ==> fs != [] && AllSendable(fs)
  {
    AllSendable(fs) && ((|fs| == 1 && fs[0].fin) || Fragments(fs))
  }

  /** Every frame fills the first fetch of 9 bytes. */
  predicate Long(fs: seq<Frame>) {
    AllSendable(fs) && forall i | 0 <= i < |fs| :: |Wire(fs[i])| >= 9
  }

  predicate AllMessages(ms: seq<seq<Frame>>) {
    forall i | 0 <= i < |ms| :: IsMessage(ms[i]) && Long(ms[i])
  }

  /** No message is too large for a reader; 0 is no limit. */
  predicate AllFit(ms: seq<seq<Frame>>, limit: nat) {
    limit == 0 || forall i | 0 <= i < |ms| :: |PayloadAll(ms[i])| < limit
  }

  function StreamOf(ms: seq<seq<Frame>>): seq<Byte>
    requires AllMessages(ms)
  {
    if ms == [] then [] else
      assert IsMessage(ms[0]);
      WireAll(ms[0]) + StreamOf(ms[1..])
  }

  /** What a message is read back as. */
  function Received(fs: seq<Frame>): (int, seq<Byte>)
    requires fs != []
  {
    (fs[|fs| - 1].opcode, PayloadAll(fs))
  }

  lemma MessageIsRead(fs: seq<Frame>, rest: seq<Byte>)
    requires IsMessage(fs)
    ensures Reassembled(WireAll(fs) + rest, false, []) == Some(Message(Received(fs).0, Received(fs).1, rest))
    ensures Long(fs) ==> Calm(WireAll(fs) + rest, false)
  {
    hide Reassembled, Calm, Wire, Continues;
    if |fs| == 1 {
      assert fs[1..] == [] && WireAll(fs) == Wire(fs[0]) + [] == Wire(fs[0]);
      assert PayloadAll(fs) == fs[0].payload + [] == fs[0].payload;
      OneFrameIsAMessage(fs[0], rest);
    } else {
      FragmentsReassemble(fs, rest);
      LastContinues(fs);
    }
  }

  lemma LastContinues(fs: seq<Frame>)
    requires Fragments(fs)
    ensures fs[|fs| - 1].opcode == CONTINUATION
  {
    assert fs[1..][|fs| - 2] == fs[|fs| - 1];
  }
}
