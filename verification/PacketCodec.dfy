/** What one call of encrypt_buf and one call of decrypt_buf do (lfd_encrypt.c), as functions of the
    encryptor's state, the packet, the random bytes and the clock. */
module PacketCodec {
  import opened Bytes
  import opened BlockCipher

  const IVEC: bytes := [0x69, 0x76, 0x65, 0x63]
  const SEQNO: bytes := [0x73, 0x65, 0x71, 0x23]
  const RSYN: bytes := [0x72, 0x73, 0x79, 0x6e]

  const MAX_GIBBERISH := 10
  const MIN_GIBBERISH := 1
  const MAX_GIBBERISH_TIME := 2

  /** cipher_enc_state and cipher_dec_state */
  datatype Phase = Init | Code | Sequence | ReqInit

  /** A context of the crypto library: cleaned up, or keyed with its current chaining register. */
  datatype Context = Unkeyed | Keyed(reg: bytes)

  /** What enc_buf starts with: nothing that was encrypted, the header of a packet, or a packet whose stream part
      was encrypted from register reg on. */
  datatype Source = Memory | Header | Stream(reg: bytes)

  /** The static variables of lfd_encrypt.c that calls change, and the flag send_a_packet of linkfd.c.  `held` is
      what enc_buf is known to hold from its beginning on, and `source` where that comes from. */
  datatype State = State(
    enc: Phase, dec: Phase, encCtx: Context, decCtx: Context,
    gibberish: nat, gibStart: int, seqNum: nat, sendPacket: bool, held: bytes, source: Source)

  /** The random bytes one encrypt_buf draws, and what the memory behind `held` held before it. */
  datatype Draw = Draw(iv: bytes, tail: bytes, pad: bytes, stale: bytes)

  function WordLimit(ulong: nat): nat {
    if ulong == 4 then 0x1_0000_0000 else 0x1_0000_0000_0000_0000
  }

  /** ECB has no chaining register; this block stands in its place. */
  function NoRegister(c: Cipher): (r: bytes)
    ensures |r| == c.bs
  {
    seq(c.bs, _ => 0)
  }

  ghost predicate KeyedFor(c: Cipher, x: Context) {
    x.Keyed? && |x.reg| == c.bs
  }

  /** The invariant of one end: CODE exactly for ECB, gibberish below its threshold and only counted
      while the decryptor waits for an "ivec", contexts keyed when they are used for decryption. */
  ghost predicate Valid(c: Cipher, e: State) {
    && c.Valid()
    && e.enc.Code? == e.dec.Code? == c.mode.ECB?
    && !e.dec.ReqInit?
    && (e.enc.Init? ==> e.encCtx.Unkeyed?)
    && (e.enc.Code? ==> e.encCtx == e.decCtx == Keyed(NoRegister(c)))
    && (e.encCtx.Keyed? ==> |e.encCtx.reg| == c.bs)
    && (e.dec.Init? <==> e.decCtx.Unkeyed?)
    && (!e.dec.Init? ==> KeyedFor(c, e.decCtx))
    && e.gibberish < MAX_GIBBERISH
    && (e.gibberish > 0 ==> e.dec.Init?)
    && e.seqNum < WordLimit(c.ulong)
  }

  /** alloc_encrypt */
  function Allocated(c: Cipher, seqNum: nat): (e: State)
    requires c.Valid() && seqNum < 0x1_0000_0000
    ensures Valid(c, e)
  {
    if c.mode.ECB? then
      var ctx := Keyed(NoRegister(c));
      State(Code, Code, ctx, ctx, 0, 0, seqNum, false, [], Memory)
    else
      State(Init, Init, Unkeyed, Unkeyed, 0, 0, seqNum, false, [], Memory)
  }

  /** ECB under the side-band context: the register plays no part. */
  function EcbEncrypt(c: Cipher, pt: bytes): (r: bytes)
    requires c.Valid() && Whole(c, pt)
    ensures |r| == |pt|
  {
    Encrypt(c, ECB, NoRegister(c), pt).0
  }

  function EcbDecrypt(c: Cipher, ct: bytes): (r: bytes)
    requires c.Valid() && Whole(c, ct)
    ensures |r| == |ct|
  {
    Decrypt(c, ECB, NoRegister(c), ct).0
  }

  /* ---------- one outgoing packet ---------- */

  function PadLength(c: Cipher, n: nat): (p: nat)
    requires c.Valid()
    ensures 1 <= p <= c.bs && Rem(c, n + p) == 0
  {
    c.bs - Rem(c, n)
  }

  /** Padding as in section 6.3 of RFC 5652, except that a full block of it is random in all but its last byte. */
  function Padding(c: Cipher, n: nat, d: Draw): (r: bytes)
    requires c.Valid() && |d.pad| == c.bs - 1
    ensures |r| == PadLength(c, n) && r[|r| - 1] == |r|
  {
    var p := PadLength(c, n);
    var last: byte := p;
    if p == c.bs then d.pad + [last] else seq(p, _ => last)
  }

  /** htonl(sequence_num) as a little-endian machine stores it in an unsigned long. */
  function SeqWord(c: Cipher, n: nat): (r: bytes)
    requires c.Valid()
    ensures |r| == c.ulong
    ensures forall i :: 4 <= i < |r| ==> r[i] == 0
  {
    Word(n / 65536) + Word(n) + seq(c.ulong - 4, _ => 0)
  }

  /** sequence_num++ on an unsigned long. */
  function NextSeq(c: Cipher, n: nat): (r: nat)
    requires c.Valid() && n < WordLimit(c.ulong)
    ensures r < WordLimit(c.ulong)
  {
    if n + 1 == WordLimit(c.ulong) then 0 else n + 1
  }

  /** How many bytes the store of the unsigned long at offset 4 reaches beyond the control block. */
  function Spill(c: Cipher): (k: nat)
    requires c.Valid()
    ensures k <= c.bs && (k > 0 <==> 4 + c.ulong > c.bs)
  {
    if 4 + c.ulong > c.bs then 4 + c.ulong - c.bs else 0
  }

  /** The payload after that store: its first Spill bytes are overwritten, and they become zero. */
  function Imprint(c: Cipher, payload: bytes): (r: bytes)
    requires c.Valid()
    ensures |r| == |payload|
    ensures forall i :: 0 <= i < |r| ==> r[i] == if i < Spill(c) then 0 else payload[i]
  {
    seq(|payload|, i requires 0 <= i < |payload| => if i < Spill(c) then 0 else payload[i])
  }

  /** What the peer is handed: the payload itself in ECB mode, its imprint below a control block. */
  function Carried(c: Cipher, payload: bytes): (r: bytes)
    requires c.Valid()
    ensures |r| == |payload|
  {
    if c.mode.ECB? then payload else Imprint(c, payload)
  }

  /** The control block sent before the payload: the tag, the sequence number, zeros. */
  function ControlBlock(c: Cipher, tag: bytes, n: nat): (r: bytes)
    requires c.Valid() && |tag| == 4
    ensures |r| == c.bs && r[..4] == tag
  {
    (tag + SeqWord(c, n) + seq(c.bs, _ => 0))[..c.bs]
  }

  /** The plaintext of the stream part of a packet. */
  function Body(c: Cipher, tag: bytes, n: nat, payload: bytes, d: Draw): (r: bytes)
    requires c.Valid() && |d.pad| == c.bs - 1
    requires |tag| == if c.mode.ECB? then 0 else 4
    ensures Whole(c, r) && r != []
    ensures |payload| < |r| <= |payload| + 2 * c.bs
    ensures !c.mode.ECB? ==> |r| >= 2 * c.bs
  {
    var padded := Carried(c, payload) + Padding(c, |payload|, d);
    if c.mode.ECB? then padded else ControlBlock(c, tag, n) + padded
  }

  ghost predicate ValidDraw(c: Cipher, payload: bytes, d: Draw) {
    && |d.iv| == c.bs && |d.tail| == c.bs - 4 && |d.pad| == c.bs - 1
    && |d.stale| >= |payload| + 2 * c.bs
  }

  /** send_msg: in state INIT, key a fresh context and announce its vector in an ECB-encrypted header. */
  function SendMsg(c: Cipher, e: State, d: Draw): (r: (State, bytes))
    requires Valid(c, e) && |d.iv| == c.bs && |d.tail| == c.bs - 4
    ensures |r.1| == if e.enc.Init? then 2 * c.bs else 0
  {
    if e.enc.Init? then
      (e.(enc := Sequence, encCtx := Keyed(d.iv)), EcbEncrypt(c, IVEC + d.iv + d.tail))
    else (e, [])
  }

  /** send_ib_mesg: the tag in front of the payload, which turns REQ_INIT into SEQUENCE. */
  function SendInBand(e: State): (r: (State, bytes)) {
    match e.enc
    case Sequence => (e, SEQNO)
    case ReqInit => (e.(enc := Sequence, sendPacket := true), RSYN)
    case _ => (e, [])
  }

  /** EVP_EncryptUpdate.  A cleaned-up context encrypts nothing, and what the output buffer held stays there. */
  function EncryptUpdate(c: Cipher, ctx: Context, pt: bytes, stale: bytes): (r: (Context, bytes))
    requires c.Valid() && Whole(c, pt) && (ctx.Keyed? ==> |ctx.reg| == c.bs) && |stale| >= |pt|
    ensures |r.1| == |pt|
    ensures r.0.Keyed? == ctx.Keyed? && (r.0.Keyed? ==> |r.0.reg| == c.bs)
    ensures c.mode.ECB? ==> r.0 == ctx
  {
    match ctx
    case Unkeyed => (ctx, stale[..|pt|])
    case Keyed(reg) =>
      var (ct, reg') := Encrypt(c, c.mode, reg, pt);
      (Keyed(reg'), ct)
  }

  /** enc_buf when a packet has been put at its beginning. */
  function Overwritten(held: bytes, wire: bytes): bytes {
    wire + if |wire| < |held| then held[|wire|..] else []
  }

  /** Where what enc_buf starts with comes from after a send. */
  function SourceAfter(e: State): Source {
    if e.enc.Init? then Header
    else match e.encCtx
      case Keyed(reg) => Stream(reg)
      case Unkeyed => e.source
  }

  /** encrypt_buf */
  function EncodePacket(c: Cipher, e: State, payload: bytes, d: Draw): (r: (State, bytes))
    requires Valid(c, e) && ValidDraw(c, payload, d)
  {
    var (e1, header) := SendMsg(c, e, d);
    var (e2, tag) := SendInBand(e1);
    if payload == [] && tag == [] then (e2, [])
    else
      var pt := Body(c, tag, e2.seqNum, payload, d);
      var e3 := e2.(seqNum := NextSeq(c, e2.seqNum));
      var (ctx, ct) := EncryptUpdate(c, e2.encCtx, pt, e.held + d.stale);
      var wire := header + ct;
      (e3.(encCtx := ctx, held := Overwritten(e.held, wire), source := SourceAfter(e)), wire)
  }

  /* ---------- one incoming packet ---------- */

  /** The packets an encryptor can emit: whole blocks, and two of them at least below a control block. */
  predicate WellSized(c: Cipher, wire: bytes) {
    Whole(c, wire) && (c.mode.ECB? || |wire| >= 2 * c.bs)
  }

  /** The "ivec" branch of recv_msg is not taken: count, and above a threshold force a re-initialisation.
      t0 and t1 are the two readings of the clock. */
  function Gibberish(e: State, t0: int, t1: int): (r: State)
  {
    var g := e.gibberish + 1;
    var start := if g == 1 then t0 else e.gibStart;
    var enc := if g == MIN_GIBBERISH then ReqInit else e.enc;
    if g >= MAX_GIBBERISH || t1 - start >= MAX_GIBBERISH_TIME then
      e.(gibberish := 0, gibStart := 0, sendPacket := true, enc := Init,
         encCtx := if enc.Init? then e.encCtx else Unkeyed)
    else
      e.(gibberish := g, gibStart := start, enc := enc, sendPacket := e.sendPacket || g == MIN_GIBBERISH)
  }

  /** What recv_msg does in state INIT once the first two blocks read as `head`. */
  function ReadHead(c: Cipher, e: State, head: bytes, t0: int, t1: int): (r: State)
    requires c.Valid() && |head| == 2 * c.bs
  {
    if head[..4] == IVEC then
      e.(decCtx := Keyed(head[4..4 + c.bs]), dec := Sequence, gibberish := 0, gibStart := 0)
    else Gibberish(e, t0, t1)
  }

  /** recv_msg: the new state and how many bytes of the packet are consumed (all of it when no "ivec" is found). */
  function RecvMsg(c: Cipher, e: State, wire: bytes, t0: int, t1: int): (r: (State, nat))
    requires Valid(c, e) && WellSized(c, wire)
    ensures Valid(c, r.0)
    ensures r.1 <= |wire| && Rem(c, |wire| - r.1) == 0
  {
    if e.dec.Init? then
      var head := EcbDecrypt(c, wire[..2 * c.bs]);
      (ReadHead(c, e, head, t0, t1), if head[..4] == IVEC then 2 * c.bs else |wire|)
    else (e, 0)
  }

  /** What recv_ib_mesg does once the plaintext starts with `tag`. */
  function React(e: State, tag: bytes): (r: State) {
    if !e.dec.Sequence? || tag == SEQNO then e
    else if tag == RSYN then e.(enc := Init, encCtx := Unkeyed)
    else if e.enc.ReqInit? || e.enc.Init? then e
    else e.(dec := Init, decCtx := Unkeyed, enc := ReqInit)
  }

  /** recv_ib_mesg: the new state and what is left of the plaintext behind the control block. */
  function RecvInBand(c: Cipher, e: State, pt: bytes): (r: (State, bytes))
    requires Valid(c, e) && |pt| >= c.bs && Whole(c, pt)
    ensures Valid(c, r.0) && Whole(c, r.1)
  {
    (React(e, pt[..4]),
     if !e.dec.Sequence? then pt else if pt[..4] == SEQNO || pt[..4] == RSYN then pt[c.bs..] else [])
  }

  /** The pad byte is read and cut off; a bad one drops the packet. */
  function Unpad(c: Cipher, pt: bytes): (r: bytes)
    requires c.Valid() && Whole(c, pt)
  {
    if pt == [] then []
    else
      var pad := pt[|pt| - 1];
      if pad < 1 || pad > c.bs then [] else pt[..|pt| - pad]
  }

  /** decrypt_buf; the empty sequence is the return value 0. */
  function DecodePacket(c: Cipher, e: State, wire: bytes, t0: int, t1: int): (r: (State, bytes))
    requires Valid(c, e) && WellSized(c, wire)
    ensures Valid(c, r.0)
  {
    var (e1, n) := RecvMsg(c, e, wire, t0, t1);
    if n == |wire| then (e1, [])
    else
      var (pt, reg) := Decrypt(c, c.mode, e1.decCtx.reg, wire[n..]);
      var (e2, rest) := RecvInBand(c, e1.(decCtx := Keyed(reg)), pt);
      (e2, Unpad(c, rest))
  }

  /* ---------- packets of any kind ---------- */

  /** All that the static variables can depend on in a packet of any length: what its first two blocks read as
      (with what stood behind it in the buffer, if it is shorter), whether anything is left to decrypt, and the
      register and the first bytes of dec_buf after the crypto library has been called. */
  datatype Seen = Seen(head: bytes, more: bool, reg: bytes, tag: bytes)

  predicate PossiblySeen(c: Cipher, o: Seen) {
    |o.head| == 2 * c.bs && |o.reg| == c.bs
  }

  /** decrypt_buf on such a packet: the new state. */
  function Receive(c: Cipher, e: State, o: Seen, t0: int, t1: int): (r: State)
    requires c.Valid() && PossiblySeen(c, o)
  {
    var e1 := if e.dec.Init? then ReadHead(c, e, o.head, t0, t1) else e;
    if e1.dec.Init? || !o.more then e1
    else React(if c.mode.ECB? then e1 else e1.(decCtx := Keyed(o.reg)), o.tag)
  }

  /** What is seen in a packet of whole blocks. */
  function SeenIn(c: Cipher, e: State, wire: bytes): (o: Seen)
    requires Valid(c, e) && WellSized(c, wire)
    ensures PossiblySeen(c, o)
  {
    var zeros := seq(2 * c.bs, _ => 0);
    var head := if e.dec.Init? then EcbDecrypt(c, wire[..2 * c.bs]) else zeros;
    var (e1, n) := RecvMsg(c, e, wire, 0, 0);
    if n == |wire| then Seen(head, false, NoRegister(c), [])
    else
      var (pt, reg) := Decrypt(c, c.mode, e1.decCtx.reg, wire[n..]);
      Seen(head, true, reg, pt[..4])
  }
}
