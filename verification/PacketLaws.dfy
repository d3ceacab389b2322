/** What holds of single packets: sizes, which payload bytes survive, and that a receiver in step with
    the sender reads exactly what was carried and stays in step. */
module PacketLaws {
  import opened Bytes
  import opened BlockCipher
  import opened PacketCodec

  /** Every packet leaves a valid state; CODE is never left, and a send always ends in SEQUENCE otherwise. */
  lemma EncodeKeepsValid(c: Cipher, e: State, payload: bytes, d: Draw)
    requires Valid(c, e) && ValidDraw(c, payload, d)
    ensures var e' := EncodePacket(c, e, payload, d).0;
      && Valid(c, e')
      && e'.enc == (if c.mode.ECB? then Code else Sequence)
      && e' == e.(enc := e'.enc, encCtx := e'.encCtx, seqNum := e'.seqNum, sendPacket := e'.sendPacket,
                  held := e'.held, source := e'.source)
  {
    hide Body, EncryptUpdate;
  }

  /** The size law: whole blocks, enough of them for the decryptor's INIT read, at most four blocks more
      than the payload. */
  lemma PacketSize(c: Cipher, e: State, payload: bytes, d: Draw)
    requires Valid(c, e) && ValidDraw(c, payload, d) && payload != []
    ensures var wire := EncodePacket(c, e, payload, d).1;
      && WellSized(c, wire)
      && |payload| < |wire| <= |payload| + 4 * c.bs
  {
    hide Body, EncryptUpdate;
  }

  /** The store at offset 4 leaves a payload as it was exactly when it ends inside the control block, or
      the bytes it reaches were zero already. */
  lemma PayloadSurvives(c: Cipher, payload: bytes)
    requires c.Valid()
    ensures Imprint(c, payload) == payload
      <==> 4 + c.ulong <= c.bs || forall i :: 0 <= i < |payload| && i < 4 + c.ulong - c.bs ==> payload[i] == 0
  {
    if Imprint(c, payload) == payload {
      forall i | 0 <= i < |payload| && i < 4 + c.ulong - c.bs ensures payload[i] == 0 {
        assert Imprint(c, payload)[i] == payload[i];
      }
    }
  }

  /** With 8-byte blocks and an 8-byte unsigned long a one-byte packet is handed over as a zero byte. */
  lemma PayloadLost(c: Cipher)
    requires c.Valid() && c.bs == 8 && c.ulong == 8
    ensures Imprint(c, [1]) != [1]
  {
    assert Imprint(c, [1])[0] == 0;
  }

  /** So every payload is carried unchanged exactly in ECB mode, or if the unsigned long ends inside the block. */
  lemma CarriesEverything(c: Cipher)
    requires c.Valid()
    ensures (forall payload: bytes {:trigger Carried(c, payload)} :: Carried(c, payload) == payload)
      <==> c.mode.ECB? || 4 + c.ulong <= c.bs
  {
    if !c.mode.ECB? && 4 + c.ulong > c.bs {
      PayloadLost(c);
      assert Carried(c, [1]) != [1];
    } else {
      forall payload: bytes ensures Carried(c, payload) == payload {
        PayloadSurvives(c, payload);
      }
    }
  }

  /** The sequence number in the control block reads back in network byte order. */
  lemma SequenceNumberReads(c: Cipher, n: nat)
    requires c.Valid()
    ensures var w := SeqWord(c, n); Value(w[..2]) * 65536 + Value(w[2..4]) == n % 0x1_0000_0000
  {
    hide Word, Value;
    var w := SeqWord(c, n);
    assert w[..2] == Word(n / 65536) && w[2..4] == Word(n);
    WordValue(n / 65536);
    WordValue(n);
  }

  lemma UnpadPadded(c: Cipher, data: bytes, d: Draw)
    requires c.Valid() && |d.pad| == c.bs - 1
    ensures Unpad(c, data + Padding(c, |data|, d)) == data
  {
    var padding := Padding(c, |data|, d);
    var s := data + padding;
    assert s[|s| - 1] == padding[|padding| - 1];
    assert s[..|s| - |padding|] == data;
  }

  /** The tag of the control block decides. */
  lemma ReadControl(c: Cipher, e: State, tag: bytes, n: nat, rest: bytes)
    requires Valid(c, e) && e.dec.Sequence? && (tag == SEQNO || tag == RSYN) && Whole(c, rest)
    ensures RecvInBand(c, e, ControlBlock(c, tag, n) + rest)
      == (if tag == RSYN then e.(enc := Init, encCtx := Unkeyed) else e, rest)
  {
    var control := ControlBlock(c, tag, n);
    var pt := control + rest;
    assert pt[..4] == control[..4] == tag;
    assert pt[c.bs..] == rest;
    assert SEQNO[0] != RSYN[0];
  }

  /** Reading a body: what is left behind the control block is the payload as carried, padded. */
  lemma ReadBody(c: Cipher, e: State, tag: bytes, n: nat, payload: bytes, d: Draw)
    requires Valid(c, e) && |d.pad| == c.bs - 1
    requires if c.mode.ECB? then tag == [] else e.dec.Sequence? && (tag == SEQNO || tag == RSYN)
    ensures RecvInBand(c, e, Body(c, tag, n, payload, d))
      == (if tag == RSYN then e.(enc := Init, encCtx := Unkeyed) else e,
          Carried(c, payload) + Padding(c, |payload|, d))
  {
    var rest := Carried(c, payload) + Padding(c, |payload|, d);
    if !c.mode.ECB? {
      ReadControl(c, e, tag, n, rest);
    }
  }

  /** A header reads back as the tag and the vector it announces. */
  lemma ReadHeader(c: Cipher, e: State, f: State, wire: bytes, d: Draw, t0: int, t1: int)
    requires Valid(c, e) && Valid(c, f) && e.enc.Init? && f.dec.Init?
    requires |d.iv| == c.bs && |d.tail| == c.bs - 4
    requires WellSized(c, wire) && wire[..2 * c.bs] == SendMsg(c, e, d).1
    ensures RecvMsg(c, f, wire, t0, t1)
      == (f.(decCtx := Keyed(d.iv), dec := Sequence, gibberish := 0, gibStart := 0), 2 * c.bs)
  {
    var pt := IVEC + d.iv + d.tail;
    RoundTrip(c, ECB, NoRegister(c), pt);
    assert pt[..4] == IVEC && pt[4..4 + c.bs] == d.iv;
  }

  /** What the receiver becomes when it could read a packet sent in phase `sent`. */
  function Understood(f: State, sent: Phase, ctx: Context): State {
    match sent
    case Init => f.(dec := Sequence, decCtx := ctx, gibberish := 0, gibStart := 0)
    case ReqInit => f.(decCtx := ctx, enc := Init, encCtx := Unkeyed)
    case _ => f.(decCtx := ctx)
  }

  /** The receiver f can read the next packet of the sender e: it waits for the header e is about to send,
      or its context equals e's. */
  ghost predicate InStep(c: Cipher, e: State, f: State) {
    if e.enc.Init? then f.dec.Init? else !f.dec.Init? && e.encCtx.Keyed? && e.encCtx == f.decCtx
  }

  /** A receiver in step reads what was carried, and is left with the sender's new context: it stays in step. */
  lemma ReadInStep(c: Cipher, e: State, f: State, payload: bytes, d: Draw, t0: int, t1: int)
    requires Valid(c, e) && Valid(c, f) && ValidDraw(c, payload, d) && payload != []
    requires InStep(c, e, f)
    ensures var (e', wire) := EncodePacket(c, e, payload, d);
      && WellSized(c, wire)
      && e'.encCtx.Keyed?
      && DecodePacket(c, f, wire, t0, t1) == (Understood(f, e.enc, e'.encCtx), Carried(c, payload))
  {
    PacketSize(c, e, payload, d);
    var (e1, header) := SendMsg(c, e, d);
    var (e2, tag) := SendInBand(e1);
    var pt := Body(c, tag, e2.seqNum, payload, d);
    var (e', wire) := EncodePacket(c, e, payload, d);
    var reg := e2.encCtx.reg;
    RoundTrip(c, c.mode, reg, pt);
    var (ct, reg') := Encrypt(c, c.mode, reg, pt);
    assert wire == header + ct;
    assert wire[..|header|] == header && wire[|header|..] == ct;
    if e.enc.Init? {
      ReadHeader(c, e, f, wire, d, t0, t1);
    }
    var (f1, n) := RecvMsg(c, f, wire, t0, t1);
    assert n == |header| && f1.decCtx == Keyed(reg);
    ReadBody(c, f1.(decCtx := Keyed(reg')), tag, e2.seqNum, payload, d);
    UnpadPadded(c, Carried(c, payload), d);
  }

  /* ---------- what a packet is made of, byte by byte ---------- */

  /** n as four bytes, high byte first. */
  function FourBytes(n: nat): (r: bytes)
    ensures |r| == 4
  {
    [n / 0x100_0000 % 0x100, n / 0x1_0000 % 0x100, n / 0x100 % 0x100, n % 0x100]
  }

  /** The control block: the tag, the sequence number, zeros. */
  lemma ControlBytes(c: Cipher, tag: bytes, n: nat)
    requires c.Valid() && |tag| == 4
    ensures var b := ControlBlock(c, tag, n);
      |b| == c.bs && b[..4] == tag && b[4..8] == FourBytes(n) && forall i :: 8 <= i < c.bs ==> b[i] == 0
  {
    var b := ControlBlock(c, tag, n);
    assert n / 65536 / 256 == n / 0x100_0000;
    assert b[4..8] == SeqWord(c, n)[..4] == FourBytes(n);
  }

  /** Each byte of the padding is its length, unless it fills a block: then all but the last are the random ones. */
  lemma PaddingBytes(c: Cipher, n: nat, d: Draw)
    requires c.Valid() && |d.pad| == c.bs - 1
    ensures var p := Padding(c, n, d);
      && 1 <= |p| <= c.bs && (n + |p|) % c.bs == 0
      && (|p| < c.bs ==> forall i :: 0 <= i < |p| ==> p[i] == |p|)
      && (|p| == c.bs ==> p == d.pad + [c.bs])
  {
  }

  /** What is left of a padded text is exactly the text, and a text with any other last byte is dropped. */
  lemma UnpadExactly(c: Cipher, pt: bytes)
    requires c.Valid() && Whole(c, pt) && pt != []
    ensures var last := pt[|pt| - 1];
      if 1 <= last <= c.bs then Unpad(c, pt) <= pt && |Unpad(c, pt)| + last == |pt| else Unpad(c, pt) == []
  {
  }

  /** Each packet counts, modulo the size of an unsigned long. */
  lemma SendCounts(c: Cipher, e: State, payload: bytes, d: Draw)
    requires Valid(c, e) && ValidDraw(c, payload, d) && payload != []
    ensures EncodePacket(c, e, payload, d).0.seqNum == (e.seqNum + 1) % WordLimit(c.ulong)
  {
    hide Body, EncryptUpdate;
  }

  /** A send raises the flag for a dummy packet exactly if it makes a request. */
  lemma SendAsks(c: Cipher, e: State, payload: bytes, d: Draw)
    requires Valid(c, e) && ValidDraw(c, payload, d) && payload != []
    ensures EncodePacket(c, e, payload, d).0.sendPacket <==> e.sendPacket || e.enc.ReqInit?
  {
    hide Body, EncryptUpdate;
  }

  /** The number a receiver in step finds behind the tag is the sender's counter. */
  lemma NumberArrives(c: Cipher, e: State, f: State, payload: bytes, d: Draw, t0: int, t1: int)
    requires Valid(c, e) && Valid(c, f) && ValidDraw(c, payload, d) && payload != []
    requires InStep(c, e, f) && !c.mode.ECB?
    ensures var wire := EncodePacket(c, e, payload, d).1;
      && WellSized(c, wire)
      && var (f1, n) := RecvMsg(c, f, wire, t0, t1);
         && n < |wire| && f1.dec.Sequence?
         && var pt := Decrypt(c, c.mode, f1.decCtx.reg, wire[n..]).0;
            |pt| >= 8 && pt[4..8] == FourBytes(e.seqNum)
  {
    hide EcbEncrypt, EcbDecrypt, Encrypt, Decrypt;
    PacketSize(c, e, payload, d);
    var (e1, header) := SendMsg(c, e, d);
    var (e2, tag) := SendInBand(e1);
    var pt := Body(c, tag, e2.seqNum, payload, d);
    var wire := EncodePacket(c, e, payload, d).1;
    var reg := e2.encCtx.reg;
    RoundTrip(c, c.mode, reg, pt);
    var ct := Encrypt(c, c.mode, reg, pt).0;
    assert wire == header + ct;
    assert wire[..|header|] == header && wire[|header|..] == ct;
    if e.enc.Init? {
      ReadHeader(c, e, f, wire, d, t0, t1);
    }
    ControlBytes(c, tag, e.seqNum);
    assert pt[4..8] == ControlBlock(c, tag, e.seqNum)[4..8];
  }
}
