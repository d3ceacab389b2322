/** lfd_encrypt.c as an array program: headers are built in the headroom before the payload, padding is
    written behind it, and everything is encrypted from there into enc_buf.  The methods are proved against
    the functions of PacketCodec. */
module Encryptor {
  import opened Bytes
  import opened BlockCipher
  import opened PacketCodec
  import opened PacketLaws

  /** s with t written over it from index `at`. */
  function Patch(s: bytes, at: nat, t: bytes): (r: bytes)
    requires at + |t| <= |s|
    ensures |r| == |s|
    ensures forall i :: at <= i < at + |t| ==> r[i] == t[i - at]
    ensures forall i :: 0 <= i < |s| && !(at <= i < at + |t|) ==> r[i] == s[i]
  {
    s[..at] + t + s[at + |t|..]
  }

  lemma PatchSlice(s: bytes, at: nat, t: bytes)
    requires at + |t| <= |s|
    ensures Patch(s, at, t)[at..at + |t|] == t
  {
  }

  lemma PatchedPrefix(s: bytes, at: nat, t: bytes)
    requires at + |t| <= |s|
    ensures Patch(s, at, t)[..at + |t|] == s[..at] + t
  {
  }

  lemma PatchedRest(s: bytes, at: nat, t: bytes)
    requires at + |t| <= |s|
    ensures Patch(s, at, t)[at + |t|..] == s[at + |t|..]
  {
  }

  lemma PatchNothing(s: bytes)
    ensures Patch(s, 0, []) == s
  {
  }

  /** Behind the packet enc_buf is what it was before the header was copied. */
  lemma HeldBehind(before: bytes, half: bytes, after: bytes, header: bytes, n: nat)
    requires |header| <= n <= |before| == |half| == |after| && half == Patch(before, 0, header) && after[n..] == half[n..]
    ensures after[n..] == before[n..]
  {
  }

  lemma SameSlice(s: bytes, t: bytes, lo: nat, hi: nat)
    requires lo <= hi <= |s| == |t| && forall i :: lo <= i < hi ==> s[i] == t[i]
    ensures s[lo..hi] == t[lo..hi]
  {
  }

  /** memcpy, memset, strncpy and RAND_bytes: bytes t end up at a[at..]. */
  method Store(a: array<byte>, at: nat, t: bytes)
    requires at + |t| <= a.Length
    modifies a
    ensures a[..] == Patch(old(a[..]), at, t)
  {
    forall i | 0 <= i < |t| {
      a[at + i] := t[i];
    }
  }

  /** The buffer once the control block is written, byte by byte: it reaches Spill bytes into the payload. */
  lemma ControlWritten(c: Cipher, before: bytes, after: bytes, off: nat, tag: bytes, n: nat)
    requires c.Valid() && |tag| == 4 && c.bs <= off && off + c.bs <= |before|
    requires after == Patch(Patch(Patch(before, off - c.bs, seq(c.bs, _ => 0)), off - c.bs, tag), off - c.bs + 4, SeqWord(c, n))
    ensures after[off - c.bs..off] == ControlBlock(c, tag, n)
    ensures forall i :: off <= i < |after| ==> after[i] == if i < off + Spill(c) then 0 else before[i]
    ensures forall i :: 0 <= i < off - c.bs ==> after[i] == before[i]
  {
    var block := ControlBlock(c, tag, n);
    forall i | 0 <= i < c.bs ensures after[off - c.bs..off][i] == block[i] {
    }
  }

  /** The payload below a control block. */
  lemma PayloadAnnounced(c: Cipher, before: bytes, after: bytes, off: nat, len: nat)
    requires c.Valid() && off + len <= |before| == |after|
    requires if c.mode.ECB? then after == before
             else forall i :: off <= i < |after| ==> after[i] == if i < off + Spill(c) then 0 else before[i]
    ensures after[off..off + len] == Carried(c, before[off..off + len])
  {
    var payload := before[off..off + len];
    forall i | 0 <= i < len ensures after[off..off + len][i] == Carried(c, payload)[i] {
      assert after[off..off + len][i] == after[off + i] && payload[i] == before[off + i];
    }
  }

  lemma HeaderWritten(c: Cipher, before: bytes, after: bytes, at: nat, d: Draw)
    requires c.Valid() && |d.iv| == c.bs && |d.tail| == c.bs - 4 && at + 2 * c.bs <= |before|
    requires after == Patch(Patch(Patch(before, at, IVEC), at + 4, d.iv), at + 4 + c.bs, d.tail)
    ensures after[at..at + 2 * c.bs] == IVEC + d.iv + d.tail
    ensures forall i :: 0 <= i < |after| && !(at <= i < at + 2 * c.bs) ==> after[i] == before[i]
  {
    var header := IVEC + d.iv + d.tail;
    forall i | 0 <= i < 2 * c.bs ensures after[at..at + 2 * c.bs][i] == header[i] {
    }
  }

  /** encrypt_buf put together from its parts.  What enc_buf held before only goes out when there is no
      header in front of it. */
  lemma EncodeParts(c: Cipher, e: State, payload: bytes, d: Draw, stale: bytes)
    requires Valid(c, e) && ValidDraw(c, payload, d)
    requires var (e1, header) := PacketCodec.SendMsg(c, e, d);
      && |stale| >= |payload| + 2 * c.bs
      && (header == [] ==> stale == e.held)
      && (payload != [] || SendInBand(e1).1 != [])
    ensures var (e1, header) := PacketCodec.SendMsg(c, e, d);
      var (e2, tag) := SendInBand(e1);
      && |tag| == (if c.mode.ECB? then 0 else 4)
      && (e2.encCtx.Keyed? ==> |e2.encCtx.reg| == c.bs)
      && e2.seqNum < WordLimit(c.ulong)
      && var (ctx, ct) := EncryptUpdate(c, e2.encCtx, Body(c, tag, e2.seqNum, payload, d), stale);
         EncodePacket(c, e, payload, d)
         == (e2.(seqNum := NextSeq(c, e2.seqNum), encCtx := ctx, held := Overwritten(e.held, header + ct),
                 source := SourceAfter(e)), header + ct)
  {
    hide Encrypt, EcbEncrypt, Body, Overwritten;
    var (e1, header) := PacketCodec.SendMsg(c, e, d);
    var (e2, tag) := SendInBand(e1);
    var pt := Body(c, tag, e2.seqNum, payload, d);
    if header == [] {
      assert (e.held + d.stale)[..|pt|] == e.held[..|pt|];
    }
  }

  /** enc_buf with a packet at its beginning. */
  lemma PacketHeld(before: bytes, after: bytes, wire: bytes)
    requires |wire| <= |before| == |after| && after[..|wire|] == wire && after[|wire|..] == before[|wire|..]
    ensures after == Overwritten(before, wire)
  {
    assert after == after[..|wire|] + after[|wire|..];
  }

  lemma EncodeNothing(c: Cipher, e: State, d: Draw)
    requires Valid(c, e) && ValidDraw(c, [], d) && SendInBand(PacketCodec.SendMsg(c, e, d).0).1 == []
    ensures EncodePacket(c, e, [], d) == (SendInBand(PacketCodec.SendMsg(c, e, d).0).0, [])
    ensures PacketCodec.SendMsg(c, e, d).1 == [] && SendInBand(PacketCodec.SendMsg(c, e, d).0).0.held == e.held
  {
  }

  lemma BodyParts(c: Cipher, control: bytes, tag: bytes, n: nat, payload: bytes, d: Draw)
    requires c.Valid() && |d.pad| == c.bs - 1 && |tag| == if c.mode.ECB? then 0 else 4
    requires control == if tag == [] then [] else ControlBlock(c, tag, n)
    ensures control + Carried(c, payload) + Padding(c, |payload|, d) == Body(c, tag, n, payload, d)
  {
    hide ControlBlock, Carried, Padding;
    var padded := Carried(c, payload) + Padding(c, |payload|, d);
    assert control + Carried(c, payload) + Padding(c, |payload|, d) == control + padded;
    assert [] + padded == padded;
  }

  /** encrypt_buf on enc_buf: `half` is what it holds when the header has been copied, `after` when the packet is there. */
  lemma Encoded(c: Cipher, e: State, payload: bytes, d: Draw, half: bytes, after: bytes, n: nat)
    requires Valid(c, e) && ValidDraw(c, payload, d) && |e.held| >= |payload| + 4 * c.bs
    requires var (e1, header) := PacketCodec.SendMsg(c, e, d);
      |header| <= n <= |e.held| == |half| == |after| && half == Patch(e.held, 0, header) && after[n..] == half[n..]
      && (payload != [] || SendInBand(e1).1 != [])
    ensures var (e1, header) := PacketCodec.SendMsg(c, e, d);
      var (e2, tag) := SendInBand(e1);
      && |tag| == (if c.mode.ECB? then 0 else 4)
      && (e2.encCtx.Keyed? ==> |e2.encCtx.reg| == c.bs)
      && e2.seqNum < WordLimit(c.ulong)
      && var pt := Body(c, tag, e2.seqNum, payload, d);
         |half[|header|..]| >= |pt| &&
         var (ctx, ct) := EncryptUpdate(c, e2.encCtx, pt, half[|header|..]);
         n == |header| + |pt| && after[..n] == half[..|header|] + ct ==>
           EncodePacket(c, e, payload, d)
           == (e2.(seqNum := NextSeq(c, e2.seqNum), encCtx := ctx, held := after, source := SourceAfter(e)), after[..n])
  {
    hide EncodePacket, Body, Patch, SendInBand, EncryptUpdate, NextSeq, EcbEncrypt, Overwritten;
    var header := PacketCodec.SendMsg(c, e, d).1;
    PatchNothing(e.held);
    PatchedPrefix(e.held, 0, header);
    assert half[..|header|] == [] + header == header;
    assert half[0..] == half;
    EncodeParts(c, e, payload, d, half[|header|..]);
    HeldBehind(e.held, half, after, header, n);
    PacketHeld(e.held, after, after[..n]);
  }

  class Encryptor {
    const c: Cipher
    const encBuf: array<byte>
    const decBuf: array<byte>

    var encState: Phase
    var decState: Phase
    var ctxEnc: Context
    var ctxDec: Context
    var gibberish: nat
    var gibTimeStart: int
    var sequenceNum: nat
    var sendAPacket: bool

    ghost var source: Source

    /** enc_buf is part of the state: under a cleaned-up context it is what goes out. */
    ghost function Current(): State
      reads this, encBuf
    {
      State(encState, decState, ctxEnc, ctxDec, gibberish, gibTimeStart, sequenceNum, sendAPacket, encBuf[..], source)
    }

    ghost predicate Ready()
      reads this, encBuf
    {
      Valid(c, Current()) && encBuf != decBuf
    }

    /** alloc_encrypt; `seqNum` is the four random bytes the counter starts from. */
    constructor (c: Cipher, size: nat, seqNum: nat)
      requires c.Valid() && seqNum < 0x1_0000_0000
      ensures Ready() && this.c == c && Current() == Allocated(c, seqNum).(held := encBuf[..])
      ensures encState == decState == (if c.mode.ECB? then Code else Init)
      ensures sequenceNum == seqNum && gibberish == 0 && gibTimeStart == 0 && !sendAPacket
      ensures !c.mode.ECB? ==> ctxEnc == ctxDec == Unkeyed
      ensures fresh(encBuf) && fresh(decBuf) && encBuf.Length == decBuf.Length == size
    {
      this.c := c;
      encBuf := new byte[size](_ => 0);
      decBuf := new byte[size](_ => 0);
      sequenceNum, gibberish, gibTimeStart, sendAPacket, source := seqNum, 0, 0, false, Memory;
      if c.mode.ECB? {
        encState, decState := Code, Code;
        ctxEnc, ctxDec := Keyed(NoRegister(c)), Keyed(NoRegister(c));
      } else {
        encState, decState := Init, Init;
        ctxEnc, ctxDec := Unkeyed, Unkeyed;
      }
    }

    /** The header ends at `off`, where the payload begins; n is its length. */
    method SendMsg(buf: array<byte>, off: nat, d: Draw) returns (n: nat)
      requires Ready() && buf != encBuf && buf != decBuf
      requires 2 * c.bs <= off <= buf.Length && |d.iv| == c.bs && |d.tail| == c.bs - 4
      modifies this`encState, this`ctxEnc, buf
      ensures Ready() && n <= 2 * c.bs
      ensures Current() == PacketCodec.SendMsg(c, old(Current()), d).0
      ensures buf[off - n..off] == PacketCodec.SendMsg(c, old(Current()), d).1
      ensures forall i :: 0 <= i < buf.Length && !(off - 2 * c.bs <= i < off) ==> buf[i] == old(buf[i])
    {
      hide Patch, EcbEncrypt;
      n := 0;
      if encState.Init? {
        n := 2 * c.bs;
        var at := off - n;
        Store(buf, at, IVEC);
        Store(buf, at + 4, d.iv);
        ctxEnc := Keyed(d.iv);
        Store(buf, at + 4 + c.bs, d.tail);
        HeaderWritten(c, old(buf[..]), buf[..], at, d);
        assert buf[at..off] == buf[..][at..off];
        Store(buf, at, EcbEncrypt(c, buf[at..off]));
        assert buf[off - n..off] == EcbEncrypt(c, IVEC + d.iv + d.tail);
        encState := Sequence;
      }
    }

    /** The control block, if there is one, goes in front of the payload; m is its length. */
    method SendIbMesg(buf: array<byte>, off: nat) returns (m: nat)
      requires Ready() && buf != encBuf && buf != decBuf
      requires c.bs <= off && off + c.bs <= buf.Length
      modifies this`encState, this`sendAPacket, buf
      ensures Ready() && Current() == SendInBand(old(Current())).0
      ensures var tag := SendInBand(old(Current())).1;
        if tag == [] then m == 0 && buf[..] == old(buf[..])
        else
          && m == c.bs
          && buf[off - c.bs..off] == ControlBlock(c, tag, sequenceNum)
          && (forall i :: off <= i < buf.Length ==> buf[i] == if i < off + Spill(c) then 0 else old(buf[i]))
          && (forall i :: 0 <= i < off - c.bs ==> buf[i] == old(buf[i]))
    {
      hide ControlBlock, SeqWord, Patch, Spill;
      m := 0;
      if encState.Sequence? || encState.ReqInit? {
        m := c.bs;
        var tag := if encState.Sequence? then SEQNO else RSYN;
        Store(buf, off - c.bs, seq(c.bs, _ => 0));
        Store(buf, off - c.bs, tag);
        Store(buf, off - c.bs + 4, SeqWord(c, sequenceNum));
        ControlWritten(c, old(buf[..]), buf[..], off, tag, sequenceNum);
        assert buf[..][off - c.bs..off] == buf[off - c.bs..off];
        if encState.ReqInit? {
          encState := Sequence;
          sendAPacket := true;
        }
      }
    }

    /** The padding goes behind the payload of `len` bytes that ends at `end`; pt is what is to be encrypted. */
    method Pad(buf: array<byte>, from: nat, end: nat, len: nat, d: Draw) returns (pt: bytes)
      requires c.Valid() && from <= end && end + c.bs <= buf.Length && |d.pad| == c.bs - 1
      modifies buf
      ensures pt == old(buf[from..end]) + Padding(c, len, d)
      ensures forall i :: 0 <= i < buf.Length && !(end <= i < end + c.bs) ==> buf[i] == old(buf[i])
    {
      hide Patch;
      ghost var before := buf[..];
      var pad := c.bs - Rem(c, len);
      var fill: byte := pad;
      Store(buf, end, seq(pad, _ => fill));
      PatchSlice(before, end, seq(pad, _ => fill));
      if pad == c.bs {
        ghost var filled := buf[..];
        Store(buf, end, d.pad);
        PatchSlice(filled, end, d.pad);
        assert buf[end + pad - 1] == fill;
        assert buf[end..end + pad] == buf[end..end + c.bs - 1] + [fill];
      }
      assert buf[end..end + pad] == Padding(c, len, d);
      SameSlice(before, buf[..], from, end);
      pt := buf[from..end + pad];
      SplitSlice(buf[..], from, end, end + pad);
    }

    /** EVP_EncryptUpdate on ctx_enc: a cleaned-up context leaves the output buffer as it is. */
    method Update(pt: bytes, at: nat)
      requires Ready() && Whole(c, pt) && at + |pt| <= encBuf.Length
      modifies this`ctxEnc, encBuf
      ensures Ready()
      ensures var (ctx, ct) := EncryptUpdate(c, old(ctxEnc), pt, old(encBuf[at..]));
        Current() == old(Current()).(encCtx := ctx, held := encBuf[..]) && encBuf[..] == Patch(old(encBuf[..]), at, ct)
    {
      if ctxEnc.Keyed? {
        var (ct, reg) := Encrypt(c, c.mode, ctxEnc.reg, pt);
        Store(encBuf, at, ct);
        ctxEnc := Keyed(reg);
      }
    }

    /** The first half of encrypt_buf: the header, copied to enc_buf before the control block overwrites its
        second half, and the control block.  h and m are their lengths. */
    method Announce(buf: array<byte>, off: nat, len: nat, d: Draw) returns (h: nat, m: nat)
      requires Ready() && buf != encBuf && buf != decBuf
      requires 2 * c.bs <= off && off + len + c.bs <= buf.Length && 2 * c.bs <= encBuf.Length
      requires |d.iv| == c.bs && |d.tail| == c.bs - 4
      modifies this`encState, this`ctxEnc, this`sendAPacket, buf, encBuf
      ensures Ready()
      ensures var (e1, header) := PacketCodec.SendMsg(c, old(Current()), d);
        var (e2, tag) := SendInBand(e1);
        && Current() == e2.(held := encBuf[..])
        && h == |header| && encBuf[..] == Patch(old(encBuf[..]), 0, header)
        && m <= off && (m == 0 <==> tag == []) && |tag| == (if c.mode.ECB? then 0 else 4)
        && buf[off - m..off + len]
           == (if tag == [] then [] else ControlBlock(c, tag, sequenceNum)) + Carried(c, old(buf[off..off + len]))
      ensures buf[off..off + len] == Carried(c, old(buf[off..off + len]))
      ensures forall i :: 0 <= i < buf.Length && !(off - 2 * c.bs <= i < off + len + c.bs) ==> buf[i] == old(buf[i])
    {
      hide ControlBlock, Patch, EcbEncrypt, Carried, Spill;
      h := SendMsg(buf, off, d);
      Store(encBuf, 0, buf[off - h..off]);
      SameSlice(old(buf[..]), buf[..], off, off + len);
      ghost var headed := buf[..];
      m := SendIbMesg(buf, off);
      PayloadAnnounced(c, headed, buf[..], off, len);
      SplitSlice(buf[..], off - m, off, off + len);
    }

    /** encrypt_buf on the payload buf[off..off + len]; the packet is encBuf[..n].  Only the two blocks before
        the payload and the block behind it are written, and the payload only by the spill of the control block. */
    method EncryptBuf(buf: array<byte>, off: nat, len: nat, d: Draw) returns (n: nat)
      requires Ready() && buf != encBuf && buf != decBuf
      requires 2 * c.bs <= off && off + len + c.bs <= buf.Length && len + 4 * c.bs <= encBuf.Length
      requires ValidDraw(c, buf[off..off + len], d)
      modifies this`encState, this`ctxEnc, this`sequenceNum, this`sendAPacket, this`source, buf, encBuf
      ensures Ready() && n <= encBuf.Length
      ensures Current() == EncodePacket(c, old(Current()), old(buf[off..off + len]), d).0
      ensures encBuf[..n] == EncodePacket(c, old(Current()), old(buf[off..off + len]), d).1
      ensures buf[off..off + len] == Carried(c, old(buf[off..off + len]))
      ensures forall i :: 0 <= i < buf.Length && !(off - 2 * c.bs <= i < off + len + c.bs) ==> buf[i] == old(buf[i])
    {
      hide EncodePacket, Body, Patch, PacketCodec.SendMsg, SendInBand, EncryptUpdate, ControlBlock, Carried, Padding, PadLength, NextSeq;
      ghost var e, payload := Current(), buf[off..off + len];
      var h, m := Announce(buf, off, len, d);
      if len + m == 0 {
        EncodeNothing(c, e, d);
        PatchNothing(e.held);
        assert payload == [] && encBuf[..] == e.held;
        return 0;
      }
      ghost var announced := buf[..];
      n := EncryptAnnounced(buf, off - m, off + len, h, len, d, e, payload);
      SameSlice(announced, buf[..], off, off + len);
    }

    /** The same when the announcement of a send from state e has been made, and stands in front of the payload. */
    method EncryptAnnounced(buf: array<byte>, from: nat, end: nat, h: nat, len: nat, d: Draw, ghost e: State, ghost payload: bytes)
      returns (n: nat)
      requires Ready() && buf != encBuf && buf != decBuf && Valid(c, e) && ValidDraw(c, payload, d) && len == |payload|
      requires from <= end && end + c.bs <= buf.Length && |e.held| == encBuf.Length >= len + 4 * c.bs
      requires var (e1, header) := PacketCodec.SendMsg(c, e, d);
        var (e2, tag) := SendInBand(e1);
        && Current() == e2.(held := encBuf[..]) && encBuf[..] == Patch(e.held, 0, header) && h == |header|
        && |tag| == (if c.mode.ECB? then 0 else 4) && (payload != [] || tag != [])
        && buf[from..end] == (if tag == [] then [] else ControlBlock(c, tag, sequenceNum)) + Carried(c, payload)
      modifies this`ctxEnc, this`sequenceNum, this`source, buf, encBuf
      ensures Ready() && n <= encBuf.Length
      ensures (Current(), encBuf[..n]) == EncodePacket(c, e, payload, d)
      ensures forall i :: 0 <= i < buf.Length && !(end <= i < end + c.bs) ==> buf[i] == old(buf[i])
    {
      hide EncodePacket, Body, Patch, PacketCodec.SendMsg, SendInBand, EncryptUpdate, ControlBlock, Carried, Padding, PadLength, NextSeq;
      ghost var tag, half := SendInBand(PacketCodec.SendMsg(c, e, d).0).1, encBuf[..];
      BodyParts(c, if tag == [] then [] else ControlBlock(c, tag, sequenceNum), tag, sequenceNum, payload, d);
      n := Finish(buf, from, end, h, len, d);
      source := SourceAfter(e);
      Encoded(c, e, payload, d, half, encBuf[..], n);
    }

    /** The second half of encrypt_buf: what stands in buf[from..end] is padded and encrypted behind the header
        of h bytes, and counted. */
    method Finish(buf: array<byte>, from: nat, end: nat, h: nat, len: nat, d: Draw) returns (n: nat)
      requires Ready() && buf != encBuf && buf != decBuf && |d.pad| == c.bs - 1
      requires from <= end && end + c.bs <= buf.Length && Whole(c, buf[from..end] + Padding(c, len, d))
      requires h + (end - from) + c.bs <= encBuf.Length
      modifies this`ctxEnc, this`sequenceNum, buf, encBuf
      ensures Ready()
      ensures var pt := old(buf[from..end]) + Padding(c, len, d);
        var (ctx, ct) := EncryptUpdate(c, old(ctxEnc), pt, old(encBuf[h..]));
        && Current() == old(Current()).(encCtx := ctx, seqNum := NextSeq(c, old(sequenceNum)), held := encBuf[..])
        && n == h + |pt| <= encBuf.Length && encBuf[..n] == old(encBuf[..h]) + ct && encBuf[n..] == old(encBuf[n..])
      ensures forall i :: 0 <= i < buf.Length && !(end <= i < end + c.bs) ==> buf[i] == old(buf[i])
    {
      hide Padding, PadLength, EncryptUpdate, NextSeq, Patch;
      var pt := Pad(buf, from, end, len, d);
      Update(pt, h);
      PatchedPrefix(old(encBuf[..]), h, EncryptUpdate(c, old(ctxEnc), pt, old(encBuf[h..])).1);
      PatchedRest(old(encBuf[..]), h, EncryptUpdate(c, old(ctxEnc), pt, old(encBuf[h..])).1);
      sequenceNum := NextSeq(c, sequenceNum);
      n := h + |pt|;
      assert old(encBuf[..])[..h] == old(encBuf[..h]);
    }

    /** The gibberish branch of recv_msg. */
    method CountGibberish(t0: int, t1: int)
      requires Ready() && decState.Init?
      modifies this`gibberish, this`gibTimeStart, this`encState, this`ctxEnc, this`sendAPacket
      ensures Ready() && Current() == Gibberish(old(Current()), t0, t1)
    {
      gibberish := gibberish + 1;
      if gibberish == 1 {
        gibTimeStart := t0;
      }
      if gibberish == MIN_GIBBERISH {
        encState := ReqInit;
        sendAPacket := true;
      }
      if gibberish >= MAX_GIBBERISH || t1 - gibTimeStart >= MAX_GIBBERISH_TIME {
        gibberish, gibTimeStart := 0, 0;
        sendAPacket := true;
        if !encState.Init? {
          encState := Init;
          ctxEnc := Unkeyed;
        }
      }
    }

    /** recv_msg on a packet of any length `len` at buf[off..]: `rest` bytes from `at` on remain to be decrypted,
        a negative number if a header does not fit the packet.  In state INIT the first two blocks are decrypted
        in place, whatever the length, and wiped afterwards. */
    method RecvMsg(buf: array<byte>, off: nat, len: nat, t0: int, t1: int) returns (at: nat, rest: int)
      requires Ready() && buf != encBuf && buf != decBuf
      requires off <= buf.Length && (decState.Init? ==> off + 2 * c.bs <= buf.Length)
      modifies this`gibberish, this`gibTimeStart, this`encState, this`decState, this`ctxEnc, this`ctxDec,
               this`sendAPacket, buf
      ensures Ready()
      ensures !old(decState).Init? ==> Current() == old(Current()) && (at, rest) == (off, len) && buf[..] == old(buf[..])
      ensures old(decState).Init? ==>
        var head := EcbDecrypt(c, old(buf[off..off + 2 * c.bs]));
        && Current() == ReadHead(c, old(Current()), head, t0, t1)
        && (at, rest) == (if head[..4] == IVEC then (off + 2 * c.bs, len - 2 * c.bs) else (off, 0))
      ensures forall i :: 0 <= i < buf.Length && !(off <= i < off + 2 * c.bs) ==> buf[i] == old(buf[i])
    {
      hide EcbDecrypt, Patch;
      at, rest := off, len;
      if decState.Init? {
        var head := EcbDecrypt(c, buf[off..off + 2 * c.bs]);
        Store(buf, off, head);
        if head[..4] == IVEC {
          ctxDec := Keyed(head[4..4 + c.bs]);
          decState := Sequence;
          gibberish, gibTimeStart := 0, 0;
          at, rest := off + 2 * c.bs, len - 2 * c.bs;
        } else {
          CountGibberish(t0, t1);
          rest := 0;
        }
        Store(buf, off, seq(2 * c.bs, _ => 0));
      }
    }

    /** recv_ib_mesg when `len` bytes have been decrypted, any number of them: it reads what dec_buf starts with.
        `n` bytes from `at` on are left. */
    method RecvIbMesg(len: int) returns (at: nat, n: int)
      requires Ready() && c.bs <= decBuf.Length
      modifies this`encState, this`decState, this`ctxEnc, this`ctxDec
      ensures Ready() && Current() == React(old(Current()), decBuf[..4])
      ensures (at, n) == if !old(decState).Sequence? then (0, len)
        else if decBuf[..4] == SEQNO || decBuf[..4] == RSYN then (c.bs, len - c.bs) else (0, 0)
    {
      at, n := 0, len;
      if decState.Sequence? {
        if decBuf[..4] == SEQNO {
          at, n := c.bs, len - c.bs;
        } else if decBuf[..4] == RSYN {
          at, n := c.bs, len - c.bs;
          if !encState.Init? {
            encState := Init;
            ctxEnc := Unkeyed;
          }
        } else {
          n := 0;
          if !decState.Init? && !encState.ReqInit? && !encState.Init? {
            ctxDec := Unkeyed;
            decState := Init;
            encState := ReqInit;
          }
        }
      }
    }

    /** The pad byte of decBuf[at..end] is read; n bytes are left, none if it is bad. */
    method CutPad(at: nat, end: nat) returns (n: nat)
      requires c.Valid() && at <= end <= decBuf.Length && Whole(c, decBuf[at..end])
      ensures at + n <= end && decBuf[at..at + n] == Unpad(c, decBuf[at..end])
    {
      n := 0;
      if at < end {
        var pad := decBuf[end - 1];
        if 1 <= pad <= c.bs {
          n := end - at - pad;
        }
      }
    }

    /** decrypt_buf on the packet buf[off..off + len]: what it hands over is decBuf[at..at + n]. */
    method DecryptBuf(buf: array<byte>, off: nat, len: nat, t0: int, t1: int) returns (at: nat, n: nat)
      requires Ready() && buf != encBuf && buf != decBuf
      requires off + len <= buf.Length && len <= decBuf.Length && WellSized(c, buf[off..off + len])
      modifies this`gibberish, this`gibTimeStart, this`encState, this`decState, this`ctxEnc, this`ctxDec,
               this`sendAPacket, buf, decBuf
      ensures Ready() && at + n <= decBuf.Length
      ensures Current() == DecodePacket(c, old(Current()), old(buf[off..off + len]), t0, t1).0
      ensures decBuf[at..at + n] == DecodePacket(c, old(Current()), old(buf[off..off + len]), t0, t1).1
      ensures forall i :: 0 <= i < buf.Length && !(off <= i < off + 2 * c.bs) ==> buf[i] == old(buf[i])
    {
      hide Patch, Decrypt, RecvInBand, PacketCodec.RecvMsg, Unpad;
      var k := RecvPacket(buf, off, len, t0, t1);
      at, n := 0, 0;
      if k < len {
        var (pt, reg) := Decrypt(c, c.mode, ctxDec.reg, buf[off + k..off + len]);
        Store(decBuf, 0, pt);
        assert decBuf[..|pt|] == pt;
        ctxDec := Keyed(reg);
        var end: nat;
        at, end := RecvPlain(|pt|);
        n := CutPad(at, end);
      }
    }

    /** recv_msg on a packet as encryptors send them: n bytes of it are consumed. */
    method RecvPacket(buf: array<byte>, off: nat, len: nat, t0: int, t1: int) returns (n: nat)
      requires Ready() && buf != encBuf && buf != decBuf
      requires off + len <= buf.Length && WellSized(c, buf[off..off + len])
      modifies this`gibberish, this`gibTimeStart, this`encState, this`decState, this`ctxEnc, this`ctxDec,
               this`sendAPacket, buf
      ensures Ready()
      ensures (Current(), n) == PacketCodec.RecvMsg(c, old(Current()), old(buf[off..off + len]), t0, t1)
      ensures n < len ==> KeyedFor(c, ctxDec) && buf[off + n..off + len] == old(buf[off..off + len])[n..]
      ensures forall i :: 0 <= i < buf.Length && !(off <= i < off + 2 * c.bs) ==> buf[i] == old(buf[i])
    {
      hide EcbDecrypt;
      ghost var before, wire := buf[..], buf[off..off + len];
      assert wire == before[off..off + len];
      if decState.Init? {
        SliceOfSlice(before, off, off + len, 0, 2 * c.bs);
      }
      var at, rest := RecvMsg(buf, off, len, t0, t1);
      n := len - rest;
      if n < len {
        SameSlice(before, buf[..], at, off + len);
        SliceOfSlice(before, off, off + len, n, len);
      }
    }

    /** recv_ib_mesg on the plaintext decBuf[..len] of such a packet: decBuf[at..end] is left. */
    method RecvPlain(len: nat) returns (at: nat, end: nat)
      requires Ready() && c.bs <= len <= decBuf.Length && Whole(c, decBuf[..len])
      modifies this`encState, this`decState, this`ctxEnc, this`ctxDec
      ensures Ready() && at <= end <= len
      ensures Current() == RecvInBand(c, old(Current()), decBuf[..len]).0
      ensures decBuf[at..end] == RecvInBand(c, old(Current()), decBuf[..len]).1
    {
      hide React;
      var n: int;
      at, n := RecvIbMesg(len);
      end := at + n;
      assert decBuf[..len][..4] == decBuf[..4] && decBuf[..len][c.bs..] == decBuf[c.bs..len];
      assert decBuf[0..len] == decBuf[..len];
    }

    /** The static variables after decrypt_buf on a packet of any length.  Of what the crypto library does with a
        length that is no number of whole blocks nothing is assumed: `plain` is what it leaves in dec_buf, and
        `reg` the register of the context. */
    method DecryptAny(buf: array<byte>, off: nat, len: nat, t0: int, t1: int, plain: bytes, reg: bytes)
      requires Ready() && buf != encBuf && buf != decBuf && |reg| == c.bs
      requires off <= buf.Length && (decState.Init? ==> off + 2 * c.bs <= buf.Length)
      requires c.bs <= decBuf.Length && |plain| <= decBuf.Length
      modifies this`gibberish, this`gibTimeStart, this`encState, this`decState, this`ctxEnc, this`ctxDec,
               this`sendAPacket, buf, decBuf
      ensures Ready()
      ensures var head := if old(decState).Init? then EcbDecrypt(c, old(buf[off..off + 2 * c.bs])) else seq(2 * c.bs, _ => 0);
        var more := len != if old(decState).Init? then 2 * c.bs else 0;
        Current() == Receive(c, old(Current()), Seen(head, more, reg, decBuf[..4]), t0, t1)
    {
      hide Patch, EcbDecrypt;
      var at, rest := RecvMsg(buf, off, len, t0, t1);
      if rest != 0 {
        Store(decBuf, 0, plain);
        if !c.mode.ECB? {
          ctxDec := Keyed(reg);
        }
        var n: int;
        at, n := RecvIbMesg(|plain|);
      }
    }
  }
}
