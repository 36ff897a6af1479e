/** kws.c: reading and writing frames over a transport that delivers and takes arbitrary short pieces. */
module Kws {
  import opened Octets
  import opened KwsFrames

  const BUFFER_SIZE: nat := 65536
  const WS_NONE := 0
  const WS_RECV_CLOSE := 1000
  const WS_PROTO_ERR := 1002

  class Connection {
    /** What has arrived and not been read, and what has been sent. */
    var incoming: seq<Byte>
    var outgoing: seq<Byte>
    var dontMask: bool
    var block: bool
    var down: bool
    var buffer: array<Byte>
    var bbuffer: array<Byte>
    var bbuflen: nat
    var payloadSizeMax: nat
    var body: nat
    var datalen: int
    var plen: int
    var rplen: int
    var packetlen: int

    ghost predicate Valid()
      reads this
    {
      && buffer.Length == BUFFER_SIZE && bbuffer.Length == bbuflen > 0 && buffer != bbuffer
    }

    constructor (input: seq<Byte>, unmasked: bool, wait: bool, max: nat)
      ensures Valid() && !down && incoming == input && outgoing == [] && dontMask == unmasked && block == wait
      ensures payloadSizeMax == max
      ensures fresh(buffer) && fresh(bbuffer)
    {
      incoming, outgoing, dontMask, block, down, payloadSizeMax := input, [], unmasked, wait, false, max;
      body, datalen, plen, rplen, packetlen, bbuflen := 0, 0, 0, 0, 0, BUFFER_SIZE;
      buffer := new Byte[BUFFER_SIZE];
      bbuffer := new Byte[BUFFER_SIZE];
    }

    /** kws_raw_read: some of the bytes that have arrived, at least one if there are any, with a NUL behind a short read.
        With none left it is 0 or an error, -2 if the read was not to wait. */
    method RawRead(data: array<Byte>, at: nat, bytes: nat, wait: bool) returns (r: int)
      requires at + bytes <= data.Length && bytes > 0
      modifies this`incoming, data
      ensures if old(incoming) == [] then r <= 0 && (r == -2 ==> !wait) else 0 < r <= bytes && r <= |old(incoming)|
      ensures incoming == old(incoming)[if r > 0 then r else 0..]
      ensures r > 0 ==> data[at..at + r] == old(incoming)[..r]
      ensures forall i | 0 <= i < data.Length && !(at <= i < at + bytes) :: data[i] == old(data[i])
    {
      r := *;
      if incoming == [] {
        return if r == 0 then 0 else if r == -2 && !wait then -2 else -1;
      }
      var most := if |incoming| < bytes then |incoming| else bytes;
      r := if r < 1 then 1 else if r > most then most else r;
      for i := 0 to r
        invariant incoming == old(incoming) && data[at..at + i] == incoming[..i]
        invariant forall k | 0 <= k < data.Length && !(at <= k < at + bytes) :: data[k] == old(data[k])
      {
        data[at + i] := incoming[i];
      }
      if r < bytes { data[at + r] := 0; }
      incoming := incoming[r..];
    }

    /** kws_string_read: one byte of the room is kept for a terminator. */
    method StringRead(data: array<Byte>, at: nat, size: nat, wait: bool) returns (r: int)
      requires at + size <= data.Length && size >= 2
      modifies this`incoming, data
      ensures if old(incoming) == [] then r <= 0 && (r == -2 ==> !wait) else 0 < r < size && r <= |old(incoming)|
      ensures incoming == old(incoming)[if r > 0 then r else 0..]
      ensures r > 0 ==> data[at..at + r] == old(incoming)[..r]
      ensures forall i | 0 <= i < data.Length && !(at <= i < at + size) :: data[i] == old(data[i])
    {
      data[at + size - 1] := 0;
      r := RawRead(data, at, size - 1, wait);
    }

    /** kws_string_read_blocking: goes on until the room is full or nothing more comes. */
    method StringReadBlocking(data: array<Byte>, at: nat, size: nat, retries: nat) returns (total: int)
      requires at + size <= data.Length && size >= 2 && retries > 0
      modifies this`incoming, data
      ensures total == if |old(incoming)| < size - 1 then |old(incoming)| else size - 1
      ensures incoming == old(incoming)[total..] && data[at..at + total] == old(incoming)[..total]
      ensures forall i | 0 <= i < data.Length && !(at <= i < at + size) :: data[i] == old(data[i])
    {
      data[at + size - 1] := 0;
      total := 0;
      var zeros := 0;
      while total < size - 1 && zeros < retries
        invariant 0 <= total < size && total <= |old(incoming)| && incoming == old(incoming)[total..]
        invariant data[at..at + total] == old(incoming)[..total]
        invariant zeros > 0 ==> incoming == []
        invariant forall i | 0 <= i < data.Length && !(at <= i < at + size) :: data[i] == old(data[i])
        decreases size - total, retries - zeros
      {
        var r := RawReadOn(data, at, total, size - 1 - total, old(incoming));
        if r == 0 {
          zeros := zeros + 1;
        } else if r < 0 {
          break;
        } else {
          total := total + r;
          zeros := 0;
        }
      }
    }

    method RawReadOn(data: array<Byte>, at: nat, total: nat, bytes: nat, ghost s: seq<Byte>) returns (r: int)
      requires at + total + bytes <= data.Length && bytes > 0 && total <= |s|
      requires incoming == s[total..] && data[at..at + total] == s[..total]
      modifies this`incoming, data
      ensures if total == |s| then r <= 0 && incoming == [] else 0 < r <= bytes && total + r <= |s| && incoming == s[total + r..]
      ensures data[at..at + total + if r > 0 then r else 0] == s[..total + if r > 0 then r else 0]
      ensures forall i | 0 <= i < data.Length && !(at <= i < at + total + bytes) :: data[i] == old(data[i])
    {
      ghost var before := data[..];
      r := RawRead(data, at + total, bytes, true);
      assert data[at..at + total] == before[at..at + total];
      if r > 0 { Glue(data[..], s, at, total, r); }
    }

    /** kws_close, as far as frames are concerned. */
    method Close(reason: nat) returns (r: int)
      modifies this`down
      requires reason != 2
      ensures down && r == if old(down) then -1 else 0 - reason
    {
      if down { return -1; }
      down := true;
      r := 0 - reason;
    }

    /** What is known once the fixed part, the mask and the length of a frame have been fetched. */
    ghost predicate Fetched(s: seq<Byte>)
      reads this, buffer
    {
      && Valid() && 2 <= datalen <= |s| && datalen <= buffer.Length && incoming == s[datalen..]
      && buffer[..datalen] == s[..datalen]
    }

    /** Fetches up to 9 bytes, at least 2. later says that nothing had arrived and the connection does not wait. */
    method FetchStart() returns (ok: bool, later: bool)
      requires Valid()
      modifies this`incoming, this`datalen, buffer
      ensures ok == (|old(incoming)| >= 2)
      ensures ok ==> Fetched(old(incoming)) && datalen <= 9 && !later
      ensures later ==> !block && old(incoming) == incoming == []
    {
      ghost var s := incoming;
      datalen := StringRead(buffer, 0, 10, block);
      if datalen < 0 { return false, datalen == -2; }
      if datalen < 2 {
        ghost var before := buffer[..];
        var bytes := StringRead(buffer, datalen, 9 - datalen, true);
        if bytes < 0 { return false, false; }
        assert buffer[..datalen] == before[..datalen];
        if bytes > 0 { Glue(buffer[..], s, 0, datalen, bytes); }
        datalen := datalen + bytes;
        if datalen < 2 { return false, false; }
      }
      ok, later := true, false;
    }

    /** Fetches more until there are need bytes. */
    method FetchTo(need: nat, ghost s: seq<Byte>) returns (ok: bool)
      requires Fetched(s) && need < 32
      modifies this`incoming, this`datalen, buffer
      ensures ok == (|s| >= need)
      ensures ok ==> Fetched(s) && datalen == if old(datalen) < need then need else old(datalen)
    {
      if need > datalen {
        ghost var before := buffer[..];
        var bytes := StringReadBlocking(buffer, datalen, need - datalen + 1, 10);
        assert buffer[..datalen] == before[..datalen];
        datalen := datalen + bytes;
        if datalen < need { return false; }
        assert buffer[..datalen] == s[..datalen];
      }
      ok := true;
    }

    /** The mask and the length, from the two bytes that announce them on. */
    method ReadHeader(mask: bool, ghost s: seq<Byte>) returns (ok: bool, need: nat, maskp: nat)
      requires Fetched(s) && datalen <= 9 && mask == HasKey(s)
      modifies this`incoming, this`datalen, this`plen, buffer
      ensures ok == (|s| >= HeaderSize(s))
      ensures ok ==> Fetched(s) && need == HeaderSize(s) && plen == PayloadLength(s) && need <= datalen
      ensures ok ==> datalen <= 9 || datalen == need
      ensures ok ==> maskp + 4 <= BUFFER_SIZE && (mask ==> buffer[maskp..maskp + 4] == Key(s))
    {
      need, maskp := 2, 0;
      if mask {
        need := need + 4;
        ok := FetchTo(need, s);
        if !ok { return; }
      }
      ok, need, maskp := ReadLength(need, s);
      if ok && mask { SameSlice(buffer[..], s, datalen, maskp, maskp + 4); }
    }

    method ReadLength(need0: nat, ghost s: seq<Byte>) returns (ok: bool, need: nat, payload: nat)
      requires Fetched(s) && need0 == (if HasKey(s) then 6 else 2) && need0 <= datalen <= 9
      modifies this`incoming, this`datalen, this`plen, buffer
      ensures ok == (|s| >= HeaderSize(s))
      ensures ok ==> Fetched(s) && need == HeaderSize(s) && plen == PayloadLength(s) && payload == 2 + LengthSize(s)
      ensures ok ==> need <= datalen && (datalen <= 9 || datalen == need)
    {
      hide FromBigEndian;
      assert buffer[1] == buffer[..datalen][1] == s[1];
      plen := buffer[1] % 128;
      need, payload := need0, 2;
      if plen == 127 {
        need := need + 8;
        ok := FetchTo(need, s);
        if !ok { return; }
        plen := Signed64(FromBigEndian(buffer[2..10]));
        payload := payload + 8;
        SameSlice(buffer[..], s, datalen, 2, 10);
      } else if plen == 126 {
        need := need + 2;
        ok := FetchTo(need, s);
        if !ok { return; }
        plen := FromBigEndian(buffer[2..4]);
        payload := payload + 2;
        SameSlice(buffer[..], s, datalen, 2, 4);
      }
      ok := true;
    }

    /** Makes the body buffer one larger than all that will be in it. */
    method MakeRoom() returns (ok: bool)
      requires Valid() && plen >= 0 && body <= bbuflen && body < 0x8000_0000
      modifies this`bbuflen, this`bbuffer
      ensures ok == (body + plen < old(bbuflen) || payloadSizeMax == 0 || body + plen + 1 <= payloadSizeMax)
      ensures ok ==> Valid() && body + plen + 1 <= bbuflen && bbuffer[..body] == old(bbuffer[..body])
      ensures bbuffer == old(bbuffer) || fresh(bbuffer)
    {
      var blen := AsInt(body);
      if blen + plen >= bbuflen {
        bbuflen := blen + plen + 1;
        if payloadSizeMax > 0 && bbuflen > payloadSizeMax { return false; }
        var tmp := new Byte[bbuflen];
        for i := 0 to bbuffer.Length
          invariant bbuflen == blen + plen + 1 && bbuffer == old(bbuffer) && bbuffer[..] == old(bbuffer[..]) && tmp[..i] == bbuffer[..i]
        {
          tmp[i] := bbuffer[i];
        }
        bbuffer := tmp;
      }
      ok := true;
    }

    /** The part of the payload that came with the header. */
    method CopyStart(payload: nat)
      requires Valid() && 0 <= rplen && payload + rplen <= BUFFER_SIZE && body + rplen <= bbuflen
      modifies bbuffer
      ensures bbuffer[..body] == old(bbuffer[..body]) && bbuffer[body..body + rplen] == buffer[payload..payload + rplen]
    {
      for i := 0 to rplen
        invariant bbuffer[..body] == old(bbuffer[..body])
        invariant bbuffer[body..body + i] == buffer[payload..payload + i]
      {
        bbuffer[body + i] := buffer[payload + i];
      }
    }

    /** The rest of the payload, in whatever pieces it comes. Each read may put a NUL behind its room. */
    method ReadRest(needed: nat, ghost p: seq<Byte>) returns (ok: bool)
      requires Valid() && 0 <= rplen && body + rplen + needed + 1 <= bbuflen
      requires rplen <= |p| && bbuffer[body..body + rplen] == p[..rplen] && incoming == p[rplen..]
      modifies this`incoming, this`rplen, this`datalen, bbuffer
      ensures ok == (old(rplen) + needed <= |p|)
      ensures bbuffer[..body] == old(bbuffer[..body])
      ensures ok ==> rplen == old(rplen) + needed && bbuffer[body..body + rplen] == p[..rplen] && incoming == p[rplen..]
    {
      var need := needed;
      while need > 0
        invariant 0 <= need <= needed && rplen == old(rplen) + needed - need && 0 <= rplen <= |p|
        invariant bbuffer[..body] == old(bbuffer[..body])
        invariant bbuffer[body..body + rplen] == p[..rplen] && incoming == p[rplen..]
      {
        var r := ReadPiece(need, p);
        if r < 1 { return false; }
        datalen := datalen + r;
        rplen := rplen + r;
        need := need - r;
      }
      ok := true;
    }

    method ReadPiece(need: nat, ghost p: seq<Byte>) returns (r: int)
      requires Valid() && need > 0 && 0 <= rplen <= |p| && body + rplen + need + 1 <= bbuflen
      requires bbuffer[body..body + rplen] == p[..rplen] && incoming == p[rplen..]
      modifies this`incoming, bbuffer
      ensures if rplen == |p| then r < 1 else 0 < r <= need && rplen + r <= |p|
      ensures bbuffer[..body] == old(bbuffer[..body])
      ensures r > 0 ==> bbuffer[body..body + rplen + r] == p[..rplen + r] && incoming == p[rplen + r..]
    {
      ghost var before := bbuffer[..];
      r := StringRead(bbuffer, body + rplen, need + 1, true);
      assert bbuffer[..body] == before[..body];
      if r > 0 {
        assert bbuffer[body..body + rplen] == before[body..body + rplen];
        Glue(bbuffer[..], p, body, rplen, r);
      }
    }

    method Unmask(maskp: nat, ghost key: seq<Byte>)
      requires Valid() && plen >= 0 && body + plen <= bbuflen && maskp + 4 <= BUFFER_SIZE
      requires |key| == 4 && key == buffer[maskp..maskp + 4]
      modifies bbuffer
      ensures bbuffer[..body] == old(bbuffer[..body])
      ensures bbuffer[body..body + plen] == Masked(key, old(bbuffer[body..body + plen]))
    {
      ghost var p := bbuffer[body..body + plen];
      for i := 0 to plen
        invariant bbuffer[..body] == old(bbuffer[..body])
        invariant forall k | 0 <= k < i :: bbuffer[body + k] == MaskByte(key, k, p[k])
        invariant forall k | i <= k < plen :: bbuffer[body + k] == p[k]
      {
        assert buffer[maskp + i % 4] == key[i % 4];
        bbuffer[body + i] := Xor(bbuffer[body + i], buffer[maskp + i % 4]);
      }
      assert bbuffer[body..body + plen] == Masked(key, p);
    }

    /** The payload of a frame whose header has been read, behind what is already in the body. */
    method ReadPayload(needed: nat, mask: bool, maskp: nat, ghost s: seq<Byte>) returns (ok: bool)
      requires Fetched(s) && needed <= datalen && needed == HeaderSize(s) && plen == PayloadLength(s)
      requires mask == HasKey(s) && maskp + 4 <= BUFFER_SIZE && (mask ==> buffer[maskp..maskp + 4] == Key(s))
      requires body <= bbuflen && body < 0x8000_0000
      modifies this`incoming, this`datalen, this`rplen, this`bbuflen, this`bbuffer, bbuffer
      ensures ok == (old(datalen) <= needed + plen <= |s| && RoomFor(old(bbuflen)))
      ensures bbuffer == old(bbuffer) || fresh(bbuffer)
      ensures ok ==> Valid() && rplen == plen && body + plen + 1 <= bbuflen && incoming == s[needed + plen..]
      ensures ok ==> bbuffer[..body] == old(bbuffer[..body])
      ensures ok ==> bbuffer[body..body + plen] == Masked(Key(s), s[needed..needed + plen])
    {
      assert mask == (Key(s) != []) && (mask ==> |Key(s)| == 4);
      hide Masked, FromBigEndian, PayloadLength, HeaderSize, Key;
      var need := plen - (datalen - needed);
      if need < 0 { return false; }
      ok := MakeRoom();
      if !ok { return; }
      ok := Fill(need, needed, s);
      if !ok { return; }
      UnmaskIfMasked(mask, maskp, Key(s), s[needed..needed + plen]);
    }

    method UnmaskIfMasked(mask: bool, maskp: nat, ghost key: seq<Byte>, ghost p: seq<Byte>)
      requires Valid() && plen >= 0 && body + plen <= bbuflen && maskp + 4 <= BUFFER_SIZE
      requires if mask then |key| == 4 && key == buffer[maskp..maskp + 4] else key == []
      requires p == bbuffer[body..body + plen]
      modifies bbuffer
      ensures bbuffer[..body] == old(bbuffer[..body]) && bbuffer[body..body + plen] == Masked(key, p)
    {
      if mask { Unmask(maskp, key); } else { MaskedPlain(p); }
    }

    /** The payload as it is on the wire. */
    method Fill(need: nat, needed: nat, ghost s: seq<Byte>) returns (ok: bool)
      requires Fetched(s) && needed <= datalen && need == plen - (datalen - needed) && body + plen + 1 <= bbuflen
      modifies this`incoming, this`datalen, this`rplen, bbuffer
      ensures ok == (needed + plen <= |s|)
      ensures ok ==> rplen == plen && incoming == s[needed + plen..]
      ensures ok ==> bbuffer[..body] == old(bbuffer[..body]) && bbuffer[body..body + plen] == s[needed..needed + plen]
    {
      SameSlice(buffer[..], s, datalen, needed, datalen);
      StartOfRest(s, needed, datalen);
      ghost var p := s[needed..];
      rplen := plen - need;
      if rplen > 0 { CopyStart(needed); }
      assert bbuffer[body..body + rplen] == p[..rplen];
      ok := ReadRest(need, p);
      if ok { EndOfRest(s, needed, plen); }
    }

    /** kws_read_frame once the connection is up. Whatever the pieces, what it returns is the message that the incoming bytes
        spell; and if every frame fills the first fetch or comes alone, and the message fits, it is returned. A connection
        that does not wait can answer -2 when all that has arrived is no message; fragments among it are gone then. Else a
        closed connection is the only sign of failure, as the result can be 0 either way. */
    method ReadFrame() returns (r: int, oc: int, data: array<Byte>)
      requires !down ==> Valid() && |incoming| < 0x8000_0000
      modifies this`incoming, this`datalen, this`plen, this`rplen, this`bbuflen, this`bbuffer, this`body, this`packetlen
      modifies this`down, buffer, bbuffer
      ensures data == bbuffer && (bbuffer == old(bbuffer) || fresh(bbuffer))
      ensures old(down) ==> down && r == -1
      ensures if down then r in {0, -1, -1000, -1002} && (!old(down) ==> r != -1)
              else if r == -2 then Valid() && !block && incoming == [] && Reassembled(old(incoming), false, []) == None
              else Valid() && 0 <= r < bbuflen && Reassembled(old(incoming), false, []) == Some(Message(oc, data[..r], incoming))
      ensures !old(down) && |old(incoming)| >= 2 && RefusalOf(old(incoming)) < 0 ==> down && r == RefusalOf(old(incoming)) && oc == 8
      ensures !old(down) && Calm(old(incoming), false) && Reassembled(old(incoming), false, []).Some?
              && (payloadSizeMax == 0 || |Reassembled(old(incoming), false, []).value.body| < payloadSizeMax)
              ==> !down && r != -2
    {
      hide Reassembled, Calm, TookFrame, MustTake;
      data := bbuffer;
      if down { return -1, INVALID, data; }
      ghost var s := incoming;
      ghost var limit := payloadSizeMax;
      var frag := false;
      body, packetlen := 0, 0;
      assert bbuffer[..body] == [];
      while true
        invariant Valid() && !down && 0 <= body <= bbuflen && packetlen == body && body + |incoming| <= |s|
        invariant bbuffer == old(bbuffer) || fresh(bbuffer)
        invariant Reassembled(s, false, []) == Reassembled(incoming, frag, bbuffer[..body])
        invariant Calm(s, false) ==> Calm(incoming, frag)
        invariant RefusalOf(s) < 0 ==> incoming == s
        decreases |incoming|
      {
        ghost var was, fragging, sofar := incoming, frag, bbuffer[..body];
        var ok;
        Unroll(was, fragging, sofar, payloadSizeMax);
        ok, r, oc, frag := ReadOne(frag);
        data := bbuffer;
        if !ok {
          if r == -2 { NothingThere(was, fragging, sofar); }
          return;
        }
        Took(was, |sofar|, sofar, fragging, oc, frag);
        if RefusalOf(was) < 0 { RefusedIsNoMessage(was, fragging, sofar); }
        if !frag { return; }
      }
    }

    lemma Took(s: seq<Byte>, at: nat, was: seq<Byte>, fragging: bool, oc: int, frag: bool)
      requires TookFrame(s, at, was, fragging, oc, frag) && |was| == at
      ensures FrameAt(s).Some? && |incoming| < |s| && body + |incoming| <= at + |s| && packetlen == body < bbuflen == bbuffer.Length
      ensures frag ==> Reassembled(s, fragging, was) == Reassembled(incoming, true, bbuffer[..body])
      ensures frag && Calm(s, fragging) ==> Calm(incoming, true)
      ensures !frag ==> Reassembled(s, fragging, was) == Some(Message(oc, bbuffer[..body], incoming))
    {
      var (f, size) := FrameAt(s).value;
      FrameIsBigger(s);
    }

    /** If there is a whole message, its next frame will do. */
    lemma Unroll(s: seq<Byte>, frag: bool, sofar: seq<Byte>, limit: nat)
      requires limit == payloadSizeMax
      ensures Calm(s, frag) && Reassembled(s, frag, sofar).Some? && (limit == 0 || |Reassembled(s, frag, sofar).value.body| < limit)
              ==> MustTake(s, |sofar|)
    {
      if FrameAt(s).Some? {
        var (f, size) := FrameAt(s).value;
        if Awaiting(frag, f) { BodyGrows(s[size..], true, sofar + f.payload); }
      }
    }

    /** One round of kws_read_frame, from its label again to the jump back or the return. */
    method ReadOne(fragging: bool) returns (ok: bool, r: int, oc: int, frag: bool)
      requires Valid() && !down && body <= bbuflen && body + |incoming| < 0x8000_0000 && packetlen == body
      modifies this`incoming, this`datalen, this`plen, this`rplen, this`bbuflen, this`bbuffer, this`body, this`packetlen
      modifies this`down, buffer, bbuffer
      ensures bbuffer == old(bbuffer) || fresh(bbuffer)
      ensures if ok then !down && Valid() && TookFrame(old(incoming), old(body), old(bbuffer[..body]), fragging, oc, frag)
              else if r == -2 then !down && Valid() && !block && old(incoming) == incoming == []
              else down && r == RefusalOf(old(incoming)) && (r < 0 ==> oc == 8)
      ensures MustTake(old(incoming), old(body)) ==> ok
      ensures ok ==> r == packetlen
    {
      hide FrameAt, Masked, FromBigEndian, PayloadLength, HeaderSize, Key;
      ghost var s := incoming;
      frag := fragging;
      oc := INVALID;
      FrameNeeds(s);
      var later;
      ok, later := FetchStart();
      if later { return false, -2, oc, frag; }
      if !ok {
        r := Close(WS_NONE);
        return;
      }
      SameSlice(buffer[..], s, datalen, 0, 2);
      assert buffer[0] == buffer[0..2][0] == s[0] && buffer[1] == buffer[0..2][1] == s[1];
      oc := buffer[0] % 16;
      if oc == CLOSE {
        plen := buffer[1] % 128;
        r := Close(WS_RECV_CLOSE);
        return false, r, oc, frag;
      }
      if !CarriesData(oc) {
        oc := CLOSE;
        r := Close(WS_PROTO_ERR);
        return false, r, oc, frag;
      }
      var fin := buffer[0] >= 128;
      var mask := buffer[1] >= 128;
      if !fin && oc != CONTINUATION {
        frag := true;
      } else if fin && oc == CONTINUATION {
        frag := false;
      }
      ok := TakeFrame(mask, oc, fragging, s);
      if !ok {
        oc := CLOSE;
        r := Close(WS_NONE);
        return;
      }
      r := packetlen;
    }

    method TakeFrame(mask: bool, oc: int, ghost fragging: bool, ghost s: seq<Byte>) returns (ok: bool)
      requires Fetched(s) && datalen <= 9 && mask == HasKey(s) && oc == Opcode(s) && CarriesData(oc)
      requires body <= bbuflen && body < 0x8000_0000 && packetlen == body
      modifies this`incoming, this`datalen, this`plen, this`rplen, this`bbuflen, this`bbuffer, this`body, this`packetlen
      modifies buffer, bbuffer
      ensures bbuffer == old(bbuffer) || fresh(bbuffer)
      ensures ok ==> Valid()
      ensures ok ==> TookFrame(s, old(body), old(bbuffer[..body]), fragging, oc, AwaitingAfter(fragging, oc, Fin(s)))
      ensures MustTake(s, old(body)) ==> ok
    {
      hide FrameAt, Masked, FromBigEndian, PayloadLength, HeaderSize, Key;
      FrameNeeds(s);
      ok := TakePayload(mask, s);
      if ok { CountPayload(oc); }
    }

    /** A text frame is terminated; the next frame would go behind this one. */
    method CountPayload(oc: int)
      requires Valid() && 0 <= rplen && body + rplen + 1 <= bbuflen && packetlen == body
      modifies this`packetlen, this`body, bbuffer
      ensures packetlen == body == old(body) + rplen
      ensures bbuffer[..body] == old(bbuffer[..body] + bbuffer[body..body + rplen])
    {
      if oc == TEXT { bbuffer[body + rplen] := 0; }
      packetlen := packetlen + rplen;
      body := body + rplen;
    }

    method TakePayload(mask: bool, ghost s: seq<Byte>) returns (ok: bool)
      requires Fetched(s) && datalen <= 9 && mask == HasKey(s) && body <= bbuflen && body < 0x8000_0000
      modifies this`incoming, this`datalen, this`plen, this`rplen, this`bbuflen, this`bbuffer, buffer, bbuffer
      ensures bbuffer == old(bbuffer) || fresh(bbuffer)
      ensures ok ==> Valid() && 2 <= HeaderSize(s) <= |s| && plen == rplen == PayloadLength(s) >= 0
      ensures ok ==> body + plen + 1 <= bbuflen && HeaderSize(s) + plen <= |s| && incoming == s[HeaderSize(s) + plen..]
      ensures ok ==> bbuffer[..body] == old(bbuffer[..body])
      ensures ok ==> bbuffer[body..body + plen] == Masked(Key(s), s[HeaderSize(s)..HeaderSize(s) + plen])
      ensures (|s| >= HeaderSize(s) && PayloadLength(s) >= 0 && |s| >= HeaderSize(s) + PayloadLength(s)
               && (HeaderSize(s) + PayloadLength(s) >= 9 || HeaderSize(s) + PayloadLength(s) == |s|)
               && (payloadSizeMax == 0 || body + PayloadLength(s) + 1 <= payloadSizeMax)) ==> ok
    {
      hide Masked, FromBigEndian, PayloadLength, Key;
      var need, maskp;
      ok, need, maskp := ReadHeader(mask, s);
      if !ok { return; }
      hide HeaderSize;
      ok := ReadPayload(need, mask, maskp, s);
    }

    /** The frame at the beginning of s has been taken into the body. */
    ghost predicate TookFrame(s: seq<Byte>, at: nat, was: seq<Byte>, fragging: bool, oc: int, frag: bool)
      reads this, bbuffer
    {
      && bbuffer.Length == bbuflen && FrameAt(s).Some? && var (f, size) := FrameAt(s).value;
      && oc == f.opcode && frag == Awaiting(fragging, f) && incoming == s[size..]
      && packetlen == body == at + |f.payload| && body + 1 <= bbuflen && bbuffer[..body] == was + f.payload
    }

    /** The frame at the beginning of s cannot be refused. */
    ghost predicate MustTake(s: seq<Byte>, at: nat)
      reads this`payloadSizeMax
    {
      && FrameAt(s).Some? && var (f, size) := FrameAt(s).value;
      && (size >= 9 || size == |s|) && (payloadSizeMax == 0 || at + |f.payload| + 1 <= payloadSizeMax)
    }

    /** kws_write_frame, with any masking key that gen_nonce may draw. The transport may take only a part of the frame and
        report that or an error, and TLS may report one even after the last byte. So the result is the payload's length
        after a whole frame, but also when just that many bytes of the frame went out. */
    method WriteFrame(oc: int, data: seq<Byte>) returns (r: int, key: seq<Byte>, sent: nat)
      requires CarriesData(oc) && |data| < 0x8000_0000_0000_0000
      modifies this`outgoing
      ensures key == [] || |key| == 4
      ensures down ==> r == -1 && outgoing == old(outgoing)
      ensures !down ==> (key == [] <==> dontMask) && Sendable(Frame(true, oc, key, data))
      ensures !down ==> var w := Wire(Frame(true, oc, key, data));
        sent <= |w| && outgoing == old(outgoing) + w[..sent] && (r < 0 || r == if sent == |w| then |data| else sent)
    {
      key, sent := [], 0;
      if down { return -1, key, sent; }
      var bp;
      bp, key := Compose(oc, data, !dontMask);
      ghost var w := Wire(Frame(true, oc, key, data));
      var total := bp.Length - 1;
      var any: int := *;
      var wrote := if any < 0 then 0 else if any > total then total else any;
      outgoing := outgoing + bp[..wrote];
      assert bp[..wrote] == w[..wrote];
      sent := wrote;
      var error: nat := *;
      r := if error > 0 then 0 - error else if wrote == total then |data| else wrote;
    }

    /** The frame in a buffer of its own, which keeps one byte to spare. */
    method Compose(oc: int, data: seq<Byte>, mask: bool) returns (bp: array<Byte>, key: seq<Byte>)
      requires CarriesData(oc) && |data| < 0x8000_0000_0000_0000
      ensures fresh(bp) && (if mask then |key| == 4 else key == [])
      ensures Sendable(Frame(true, oc, key, data)) && bp.Length > 0 && bp[..bp.Length - 1] == Wire(Frame(true, oc, key, data))
    {
      hide Masked, BigEndian;
      var bytes := |data|;
      var hdr := ComposeHeader(oc, bytes);
      var hlen := |hdr|;
      bp := new Byte[hlen + bytes + 1 + if mask then 4 else 0];
      key := Lay(bp, hdr, data, mask);
    }

    method Lay(bp: array<Byte>, hdr: seq<Byte>, data: seq<Byte>, mask: bool) returns (key: seq<Byte>)
      requires |hdr| >= 2 && hdr[1] < 128 && bp.Length == |hdr| + |data| + 1 + if mask then 4 else 0
      modifies bp
      ensures if mask then |key| == 4 else key == []
      ensures bp[..bp.Length - 1] == [hdr[0], hdr[1] + if mask then 128 else 0] + hdr[2..] + key + Masked(key, data)
    {
      hide Masked;
      var hlen := |hdr|;
      Put(bp, 0, hdr);
      assert bp[..hlen] == hdr;
      key := [];
      if mask {
        var maskingKey := DrawKey();
        key := maskingKey;
        assert bp[1] == bp[..hlen][1] == hdr[1];
        bp[1] := bp[1] + 128;
        ghost var head := bp[..hlen];
        assert head == [hdr[0], hdr[1] + 128] + hdr[2..];
        Put(bp, hlen, maskingKey);
        hlen := hlen + 4;
        PutMasked(bp, hlen, data, maskingKey);
      } else {
        Put(bp, hlen, data);
        MaskedPlain(data);
        assert hdr == [hdr[0], hdr[1]] + hdr[2..];
      }
    }

    method ComposeHeader(oc: int, bytes: nat) returns (hdr: seq<Byte>)
      requires CarriesData(oc)
      ensures hdr == [oc + 128, ShortLength(bytes)] + LongLength(bytes)
    {
      hdr := [oc + 128];
      if bytes < 126 {
        hdr := hdr + [bytes];
      } else if bytes < 0x10000 {
        hdr := hdr + [126] + BigEndian(bytes, 2);
      } else {
        hdr := hdr + [127] + BigEndian(bytes, 8);
      }
    }

    /** gen_nonce: any four bytes. */
    method DrawKey() returns (key: seq<Byte>)
      ensures |key| == 4
    {
      key := [];
      for i := 0 to 4
        invariant |key| == i
      {
        var b: int := *;
        key := key + [b % 256];
      }
    }

    /** Whether the body may grow by the payload. */
    predicate RoomFor(length: nat)
      reads this`body, this`plen, this`payloadSizeMax
    {
      body + plen < length || payloadSizeMax == 0 || body + plen + 1 <= payloadSizeMax
    }
  }

  /** A frame that was sent whole arrives as it was given, whatever the key and the pieces. more is what the peer has sent
      behind it. */
  method Loopback(oc: int, payload: seq<Byte>, unmasked: bool, wait: bool, max: nat, more: seq<Byte>)
      returns (whole: bool, back: int, backOc: int, data: seq<Byte>)
    requires CarriesData(oc) && |payload| + |more| + 14 < 0x8000_0000 && (max == 0 || |payload| < max)
    requires |payload| + (if unmasked then 2 else 6) >= 9 || more == []
    ensures whole ==> back == |payload| && backOc == oc && data == payload
  {
    hide Wire, Masked, Reassembled, Calm, FrameAt;
    var a := new Connection([], unmasked, true, 0);
    var r, key, sent := a.WriteFrame(oc, payload);
    var f := Frame(true, oc, key, payload);
    WireSize(f);
    whole := sent == |Wire(f)|;
    back, backOc, data := -1, INVALID, [];
    if whole {
      var b := new Connection(a.outgoing + more, unmasked, wait, max);
      assert b.incoming == Wire(f) + more;
      OneFrameIsAMessage(f, more);
      var buf;
      back, backOc, buf := b.ReadFrame();
      data := buf[..back];
    }
  }

  /** A whole stream of messages is read back one by one, each as its opcode and body, and nothing more is taken. */
  method ReceiveAll(b: Connection, count: nat, ghost ms: seq<seq<Frame>>, ghost rest: seq<Byte>) returns (got: seq<(int, seq<Byte>)>)
    requires !b.down && b.Valid() && |b.incoming| < 0x8000_0000 && count == |ms|
    requires AllMessages(ms) && AllFit(ms, b.payloadSizeMax) && b.incoming == StreamOf(ms) + rest
    modifies b, b.buffer, b.bbuffer
    ensures !b.down && b.incoming == rest && |got| == |ms|
    ensures forall i | 0 <= i < |ms| :: ms[i] != [] && got[i] == Received(ms[i])
  {
    hide AllMessages, IsMessage, Long, AllFit, Reassembled, Calm, WireAll, Received;
    got := [];
    ghost var left := ms;
    for i := 0 to count
      invariant !b.down && b.Valid() && b.payloadSizeMax == old(b.payloadSizeMax) && |b.incoming| < 0x8000_0000 && |got| == i
      invariant b.buffer == old(b.buffer) && (b.bbuffer == old(b.bbuffer) || fresh(b.bbuffer))
      invariant left == ms[i..] && AllMessages(left) && b.incoming == StreamOf(left) + rest
      invariant forall k | 0 <= k < i :: ms[k] != [] && got[k] == Received(ms[k])
    {
      StreamUnfolds(left, rest);
      MessageIsRead(ms[i], StreamOf(left[1..]) + rest);
      FitsAt(ms, b.payloadSizeMax, i);
      var r, oc, data := b.ReadFrame();
      got := got + [(oc, data[..r])];
      left := left[1..];
    }
  }

  lemma FitsAt(ms: seq<seq<Frame>>, limit: nat, i: nat)
    requires AllMessages(ms) && AllFit(ms, limit) && i < |ms|
    ensures ms[i] != [] && (limit == 0 || |Received(ms[i]).1| < limit)
  {
    assert IsMessage(ms[i]);
  }

  lemma StreamUnfolds(ms: seq<seq<Frame>>, rest: seq<Byte>)
    requires ms != [] && AllMessages(ms)
    ensures IsMessage(ms[0]) && Long(ms[0]) && AllMessages(ms[1..])
    ensures StreamOf(ms) + rest == WireAll(ms[0]) + (StreamOf(ms[1..]) + rest)
  {
    hide IsMessage, Long, WireAll;
    assert IsMessage(ms[0]) && Long(ms[0]);
  }

  lemma WireSize(f: Frame)
    requires Sendable(f)
    ensures |f.payload| + |f.key| + 2 <= |Wire(f)| <= |f.payload| + 14
  {
  }

  /** memcpy */
  method Put(bp: array<Byte>, at: nat, data: seq<Byte>)
    requires at + |data| <= bp.Length
    modifies bp
    ensures bp[..at + |data|] == old(bp[..at]) + data
  {
    for i := 0 to |data|
      invariant bp[..at + i] == old(bp[..at]) + data[..i]
    {
      bp[at + i] := data[i];
    }
  }

  method PutMasked(bp: array<Byte>, at: nat, data: seq<Byte>, key: seq<Byte>)
    requires at + |data| <= bp.Length && |key| == 4
    modifies bp
    ensures bp[..at + |data|] == old(bp[..at]) + Masked(key, data)
  {
    for i := 0 to |data|
      invariant bp[..at + i] == old(bp[..at]) + Masked(key, data)[..i]
    {
      bp[at + i] := Xor(data[i], key[i % 4]);
    }
  }

  /** What the reader answers to a frame that it does not take: that it was closed, that it is none of the protocol, or
      nothing of the kind. */
  ghost function RefusalOf(s: seq<Byte>): int {
    if |s| >= 2 && s[0] % 16 == 8 then -1000
    else if |s| >= 2 && s[0] % 16 !in {0, 1, 2, 9, 10} then -1002
    else 0
  }

  lemma RefusedIsNoMessage(s: seq<Byte>, frag: bool, sofar: seq<Byte>)
    requires RefusalOf(s) < 0
    ensures FrameAt(s) == None && Reassembled(s, frag, sofar) == None
  {
  }

  /** (int) x */
  function AsInt(x: int): int {
    (x + 0x8000_0000) % 0x1_0000_0000 - 0x8000_0000
  }

  lemma StartOfRest(s: seq<Byte>, h: nat, n: nat)
    requires h <= n <= |s|
    ensures s[h..n] == s[h..][..n - h] && s[n..] == s[h..][n - h..]
  {
  }

  lemma EndOfRest(s: seq<Byte>, h: nat, n: nat)
    requires h + n <= |s|
    ensures s[h..][..n] == s[h..h + n] && s[h..][n..] == s[h + n..]
  {
  }

  function AwaitingAfter(frag: bool, opcode: int, fin: bool): bool {
    Awaiting(frag, Frame(fin, opcode, [], []))
  }

  lemma NothingThere(s: seq<Byte>, frag: bool, sofar: seq<Byte>)
    requires s == []
    ensures Reassembled(s, frag, sofar) == None
  {
  }

  lemma FrameIsBigger(s: seq<Byte>)
    requires FrameAt(s).Some?
    ensures |FrameAt(s).value.0.payload| < FrameAt(s).value.1
  {
  }

  lemma {:induction false} BodyGrows(s: seq<Byte>, frag: bool, sofar: seq<Byte>)
    ensures Reassembled(s, frag, sofar).Some? ==> |Reassembled(s, frag, sofar).value.body| >= |sofar|
    decreases |s|
  {
    if FrameAt(s).Some? {
      var (f, size) := FrameAt(s).value;
      if Awaiting(frag, f) { BodyGrows(s[size..], true, sofar + f.payload); }
    }
  }

  lemma FrameNeeds(s: seq<Byte>)
    ensures FrameAt(s) ==
      if |s| < 2 || !CarriesData(Opcode(s)) || |s| < HeaderSize(s) || PayloadLength(s) < 0 || |s| < HeaderSize(s) + PayloadLength(s)
      then None
      else Some((Frame(Fin(s), Opcode(s), Key(s), Masked(Key(s), s[HeaderSize(s)..HeaderSize(s) + PayloadLength(s)])),
                 HeaderSize(s) + PayloadLength(s)))
  {
  }

  lemma MaskedPlain(p: seq<Byte>)
    ensures Masked([], p) == p
  {
  }

  lemma SameSlice(d: seq<Byte>, s: seq<Byte>, n: nat, i: nat, j: nat)
    requires i <= j <= n <= |d| && n <= |s| && d[..n] == s[..n]
    ensures d[i..j] == s[i..j]
  {
    assert d[i..j] == d[..n][i..j];
    assert s[i..j] == s[..n][i..j];
  }

  /** What was read goes on where the last read ended. */
  lemma Glue(d: seq<Byte>, s: seq<Byte>, at: nat, done: nat, r: nat)
    requires at + done + r <= |d| && done + r <= |s|
    requires d[at..at + done] == s[..done] && d[at + done..at + done + r] == s[done..][..r]
    ensures d[at..at + done + r] == s[..done + r] && s[done..][r..] == s[done + r..]
  {
    assert d[at..at + done + r] == d[at..at + done] + d[at + done..at + done + r];
    assert s[..done + r] == s[..done] + s[done..][..r];
  }
}
