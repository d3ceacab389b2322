/** The block cipher and its modes of operation, as lfd_encrypt.c uses them through the crypto library.

    The cipher itself is a parameter: a pair of functions on blocks of which only D(E(b)) == b is
    known.  ECB, CBC, CFB and OFB are sections 6.1 to 6.4 of NIST SP 800-38A; CFB and OFB use the
    full block as segment, because every call in lfd_encrypt.c processes whole blocks. */
module BlockCipher {
  import opened Bytes

  datatype Mode = ECB | CBC | CFB | OFB

  /** bs is `blocksize`, ulong is sizeof(unsigned long), E and D are the keyed permutation. */
  datatype Cipher = Cipher(mode: Mode, bs: nat, ulong: nat, E: bytes -> bytes, D: bytes -> bytes) {
    ghost predicate Valid() {
      && (bs == 8 || bs == 16)
      && (ulong == 4 || ulong == 8)
      && (forall b: bytes {:trigger E(b)} :: |b| == bs ==> |E(b)| == bs && D(E(b)) == b)
      && (forall b: bytes {:trigger D(b)} :: |b| == bs ==> |D(b)| == bs)
    }
  }

  /** n & (blocksize - 1) */
  function Rem(c: Cipher, n: nat): nat {
    if c.bs == 8 then n % 8 else n % 16
  }

  predicate Whole(c: Cipher, s: bytes) {
    Rem(c, |s|) == 0
  }

  function Xor(a: bytes, b: bytes): (r: bytes)
    requires |a| == |b|
    ensures |r| == |a|
  {
    seq(|a|, i requires 0 <= i < |a| => XorByte(a[i], b[i]))
  }

  lemma XorTwice(a: bytes, b: bytes)
    requires |a| == |b|
    ensures Xor(Xor(a, b), b) == a
  {
    forall i | 0 <= i < |a| ensures Xor(Xor(a, b), b)[i] == a[i] {
      XorByteTwice(a[i], b[i]);
    }
  }

  /** One block: the output block and the next chaining register. */
  function EncryptBlock(c: Cipher, mode: Mode, reg: bytes, b: bytes): (r: (bytes, bytes))
    requires c.Valid() && |reg| == c.bs && |b| == c.bs
    ensures |r.0| == c.bs && |r.1| == c.bs
  {
    match mode
    case ECB => (c.E(b), reg)
    case CBC => var y := c.E(Xor(b, reg)); (y, y)
    case CFB => var y := Xor(b, c.E(reg)); (y, y)
    case OFB => var k := c.E(reg); (Xor(b, k), k)
  }

  function DecryptBlock(c: Cipher, mode: Mode, reg: bytes, b: bytes): (r: (bytes, bytes))
    requires c.Valid() && |reg| == c.bs && |b| == c.bs
    ensures |r.0| == c.bs && |r.1| == c.bs
  {
    match mode
    case ECB => (c.D(b), reg)
    case CBC => (Xor(c.D(b), reg), b)
    case CFB => (Xor(b, c.E(reg)), b)
    case OFB => var k := c.E(reg); (Xor(b, k), k)
  }

  lemma BlockRoundTrip(c: Cipher, mode: Mode, reg: bytes, b: bytes)
    requires c.Valid() && |reg| == c.bs && |b| == c.bs
    ensures DecryptBlock(c, mode, reg, EncryptBlock(c, mode, reg, b).0) == (b, EncryptBlock(c, mode, reg, b).1)
  {
    match mode
    case ECB =>
    case CBC => XorTwice(b, reg);
    case CFB => XorTwice(b, c.E(reg));
    case OFB => XorTwice(b, c.E(reg));
  }

  /** Whole blocks: the ciphertext and the chaining register left in the context. */
  function Encrypt(c: Cipher, mode: Mode, reg: bytes, pt: bytes): (r: (bytes, bytes))
    requires c.Valid() && |reg| == c.bs && Whole(c, pt)
    ensures |r.0| == |pt| && |r.1| == c.bs
    ensures mode.ECB? ==> r.1 == reg
    decreases |pt|
  {
    if pt == [] then ([], reg)
    else
      var (y, r1) := EncryptBlock(c, mode, reg, pt[..c.bs]);
      var (ys, r2) := Encrypt(c, mode, r1, pt[c.bs..]);
      (y + ys, r2)
  }

  function Decrypt(c: Cipher, mode: Mode, reg: bytes, ct: bytes): (r: (bytes, bytes))
    requires c.Valid() && |reg| == c.bs && Whole(c, ct)
    ensures |r.0| == |ct| && |r.1| == c.bs
    ensures mode.ECB? ==> r.1 == reg
    decreases |ct|
  {
    if ct == [] then ([], reg)
    else
      var (x, r1) := DecryptBlock(c, mode, reg, ct[..c.bs]);
      var (xs, r2) := Decrypt(c, mode, r1, ct[c.bs..]);
      (x + xs, r2)
  }

  /** Decrypting with the register the sender started from gives back the plaintext, and leaves the
      receiver with the register the sender was left with. */
  lemma {:induction false} RoundTrip(c: Cipher, mode: Mode, reg: bytes, pt: bytes)
    requires c.Valid() && |reg| == c.bs && Whole(c, pt)
    ensures Decrypt(c, mode, reg, Encrypt(c, mode, reg, pt).0) == (pt, Encrypt(c, mode, reg, pt).1)
    decreases |pt|
  {
    if pt == [] {
    } else {
      hide EncryptBlock, DecryptBlock;
      var (y, r1) := EncryptBlock(c, mode, reg, pt[..c.bs]);
      var (ys, r2) := Encrypt(c, mode, r1, pt[c.bs..]);
      var ct := y + ys;
      BlockRoundTrip(c, mode, reg, pt[..c.bs]);
      RoundTrip(c, mode, r1, pt[c.bs..]);
      assert ct[..c.bs] == y && ct[c.bs..] == ys;
      assert pt[..c.bs] + pt[c.bs..] == pt;
    }
  }

  /** CBC and CFB resynchronise by themselves: one whole block decrypted under any register leaves the
      register the sender has, and everything after the first block is read correctly. */
  lemma {:induction false} SelfSynchronising(c: Cipher, mode: Mode, r1: bytes, r2: bytes, ct: bytes)
    requires c.Valid() && |r1| == |r2| == c.bs && Whole(c, ct) && ct != []
    requires mode == CBC || mode == CFB
    ensures Decrypt(c, mode, r1, ct).1 == Decrypt(c, mode, r2, ct).1
    ensures Decrypt(c, mode, r1, ct).0[c.bs..] == Decrypt(c, mode, r2, ct).0[c.bs..]
  {
    assert DecryptBlock(c, mode, r1, ct[..c.bs]).1 == DecryptBlock(c, mode, r2, ct[..c.bs]).1;
    var rest := Decrypt(c, mode, ct[..c.bs], ct[c.bs..]);
    assert Decrypt(c, mode, r1, ct).0 == DecryptBlock(c, mode, r1, ct[..c.bs]).0 + rest.0;
    assert Decrypt(c, mode, r2, ct).0 == DecryptBlock(c, mode, r2, ct[..c.bs]).0 + rest.0;
  }

  /* ---------- the modes, block by block ---------- */

  function Blocks(c: Cipher, s: bytes): (r: seq<bytes>)
    requires c.Valid() && Whole(c, s)
    ensures forall b :: b in r ==> |b| == c.bs
    decreases |s|
  {
    if s == [] then [] else [s[..c.bs]] + Blocks(c, s[c.bs..])
  }

  /** E applied n times. */
  function Iterated(c: Cipher, b: bytes, n: nat): (r: bytes)
    requires c.Valid() && |b| == c.bs
    ensures |r| == c.bs
  {
    if n == 0 then b else c.E(Iterated(c, b, n - 1))
  }

  lemma {:induction false} IteratedShift(c: Cipher, b: bytes, n: nat)
    requires c.Valid() && |b| == c.bs
    ensures Iterated(c, c.E(b), n) == Iterated(c, b, n + 1)
  {
    if n > 0 {
      IteratedShift(c, b, n - 1);
    }
  }

  /** The block before block j of the ciphertext, the register before the first. */
  function Previous(reg: bytes, ct: seq<bytes>, j: nat): bytes
    requires j <= |ct|
  {
    if j == 0 then reg else ct[j - 1]
  }

  /** Block j of the ciphertext as sections 6.1 to 6.4 of NIST SP 800-38A have it: from its plaintext and, according
      to the mode, nothing else, the previous block of ciphertext, or the key stream of iterated encryptions. */
  function BlockOf(c: Cipher, mode: Mode, reg: bytes, plain: seq<bytes>, ct: seq<bytes>, j: nat): (r: bytes)
    requires c.Valid() && |reg| == c.bs && j < |plain| == |ct|
    requires (forall b :: b in plain ==> |b| == c.bs) && forall b :: b in ct ==> |b| == c.bs
  {
    match mode
    case ECB => c.E(plain[j])
    case CBC => c.E(Xor(plain[j], Previous(reg, ct, j)))
    case CFB => Xor(plain[j], c.E(Previous(reg, ct, j)))
    case OFB => Xor(plain[j], Iterated(c, reg, j + 1))
  }

  /** The register that is left. */
  function LastRegister(c: Cipher, mode: Mode, reg: bytes, ct: seq<bytes>): bytes
    requires c.Valid() && |reg| == c.bs
  {
    match mode
    case ECB => reg
    case CBC => Previous(reg, ct, |ct|)
    case CFB => Previous(reg, ct, |ct|)
    case OFB => Iterated(c, reg, |ct|)
  }

  /** One block in front. */
  lemma FirstBlock(c: Cipher, mode: Mode, reg: bytes, b: bytes, plain: seq<bytes>, ct: seq<bytes>)
    requires c.Valid() && |reg| == c.bs && |b| == c.bs && |plain| == |ct|
    requires (forall b :: b in plain ==> |b| == c.bs) && forall b :: b in ct ==> |b| == c.bs
    ensures var (y, r1) := EncryptBlock(c, mode, reg, b);
      var (P, C) := ([b] + plain, [y] + ct);
      && BlockOf(c, mode, reg, P, C, 0) == y
      && (forall j :: 0 <= j < |plain| ==> BlockOf(c, mode, reg, P, C, j + 1) == BlockOf(c, mode, r1, plain, ct, j))
      && LastRegister(c, mode, reg, C) == LastRegister(c, mode, r1, ct)
  {
    hide Xor;
    var (y, r1) := EncryptBlock(c, mode, reg, b);
    var (P, C) := ([b] + plain, [y] + ct);
    PreviousShift(reg, y, ct);
    assert Iterated(c, reg, 1) == c.E(Iterated(c, reg, 0)) == c.E(reg);
    forall j: nat ensures Iterated(c, c.E(reg), j) == Iterated(c, reg, j + 1) {
      IteratedShift(c, reg, j);
    }
    forall j | 0 <= j < |plain| ensures BlockOf(c, mode, reg, P, C, j + 1) == BlockOf(c, mode, r1, plain, ct, j) {
      assert P[j + 1] == plain[j];
    }
  }

  lemma PreviousShift(reg: bytes, y: bytes, ct: seq<bytes>)
    ensures forall j :: 0 <= j <= |ct| ==> Previous(reg, [y] + ct, j + 1) == Previous(y, ct, j)
    ensures Previous(reg, [y] + ct, 0) == reg
  {
  }

  /** Encryption is what the standard says of each block, and leaves the register it says. */
  lemma {:induction false} ModeByBlocks(c: Cipher, mode: Mode, reg: bytes, pt: bytes)
    requires c.Valid() && |reg| == c.bs && Whole(c, pt)
    ensures var (P, C) := (Blocks(c, pt), Blocks(c, Encrypt(c, mode, reg, pt).0));
      && |C| == |P|
      && (forall j :: 0 <= j < |P| ==> C[j] == BlockOf(c, mode, reg, P, C, j))
      && Encrypt(c, mode, reg, pt).1 == LastRegister(c, mode, reg, C)
    decreases |pt|
  {
    if pt == [] {
      hide Xor;
    } else {
      hide EncryptBlock, BlockOf, LastRegister;
      var (y, r1) := EncryptBlock(c, mode, reg, pt[..c.bs]);
      var (ys, r2) := Encrypt(c, mode, r1, pt[c.bs..]);
      var ct := y + ys;
      assert ct[..c.bs] == y && ct[c.bs..] == ys;
      ModeByBlocks(c, mode, r1, pt[c.bs..]);
      var P1, C1 := Blocks(c, pt[c.bs..]), Blocks(c, ys);
      var P, C := [pt[..c.bs]] + P1, [y] + C1;
      assert Blocks(c, pt) == P && Blocks(c, ct) == C;
      FirstBlock(c, mode, reg, pt[..c.bs], P1, C1);
      forall j | 0 <= j < |P| ensures C[j] == BlockOf(c, mode, reg, P, C, j) {
        if j > 0 {
          assert C[j] == C1[j - 1] == BlockOf(c, mode, r1, P1, C1, j - 1);
        }
      }
    }
  }
}
