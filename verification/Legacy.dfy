/** The legacy encryptor (lfd_legacy_encrypt.c): 8-byte blocks in ECB, padded in front. */
module Legacy {
  import opened Bytes
  import opened BlockCipher

  const BLOCK := 8
  const NONE: bytes := [0, 0, 0, 0, 0, 0, 0, 0]    // ECB has no register

  /** ~len & 7: each of the lowest three bits is turned over. */
  function NotAnd7(len: nat): nat {
    XorBits(len, 7, 3)
  }

  lemma ThreeBits(len: nat)
    ensures NotAnd7(len) == 4 * (1 - len / 2 / 2 % 2) + 2 * (1 - len / 2 % 2) + (1 - len % 2)
  {
    assert XorBits(len / 2 / 2, 1, 1) == 1 - len / 2 / 2 % 2;
    assert XorBits(len / 2, 3, 2) == 2 * XorBits(len / 2 / 2, 1, 1) + (1 - len / 2 % 2);
    assert XorBits(len, 7, 3) == 2 * XorBits(len / 2, 3, 2) + (1 - len % 2);
  }

  /** The code computes the pad length as (~len & 7) + 1. */
  lemma PadFormula(len: nat)
    ensures NotAnd7(len) + 1 == 8 - len % 8
  {
    hide NotAnd7;
    ThreeBits(len);
  }

  function PadLength(len: nat): (pad: nat)
    ensures 1 <= pad <= 8 && (len + pad) % 8 == 0
  {
    8 - len % 8
  }

  /** The pad length in the first byte, zeros, then the payload. */
  function Padded(payload: bytes): (r: bytes)
    ensures |r| % 8 == 0 && |r| == |payload| + PadLength(|payload|)
  {
    var pad := PadLength(|payload|);
    [pad] + seq(pad - 1, _ => 0) + payload
  }

  function Seal(c: Cipher, payload: bytes): (r: bytes)
    requires c.Valid() && c.bs == BLOCK
    ensures |r| == |payload| + PadLength(|payload|)
  {
    Encrypt(c, ECB, NONE, Padded(payload)).0
  }

  /** decrypt: what is handed over, nothing if the pad length is bad. */
  function Open(c: Cipher, wire: bytes): (r: bytes)
    requires c.Valid() && c.bs == BLOCK && |wire| % 8 == 0 && wire != []
  {
    var pt := Decrypt(c, ECB, NONE, wire).0;
    var p := pt[0];
    if p < 1 || p > 8 then [] else pt[p..]
  }

  /** Main result: every payload, of any length, comes back. */
  lemma OpenSeal(c: Cipher, payload: bytes)
    requires c.Valid() && c.bs == BLOCK
    ensures Open(c, Seal(c, payload)) == payload
  {
    var pt := Padded(payload);
    var pad := PadLength(|payload|);
    RoundTrip(c, ECB, NONE, pt);
    assert pt[0] == pad;
    assert pt[pad..] == payload;
  }

  /* ---------- block by block ---------- */

  lemma {:induction false} EncryptLast(c: Cipher, reg: bytes, s: bytes, b: bytes)
    requires c.Valid() && c.bs == BLOCK && |reg| == 8 && |s| % 8 == 0 && |b| == 8
    ensures Encrypt(c, ECB, reg, s + b).0 == Encrypt(c, ECB, reg, s).0 + c.E(b)
    decreases |s|
  {
    if s == [] {
      assert s + b == b && b[..8] == b && b[8..] == [];
    } else {
      assert (s + b)[..8] == s[..8] && (s + b)[8..] == s[8..] + b;
      EncryptLast(c, reg, s[8..], b);
    }
  }

  lemma {:induction false} DecryptLast(c: Cipher, reg: bytes, s: bytes, b: bytes)
    requires c.Valid() && c.bs == BLOCK && |reg| == 8 && |s| % 8 == 0 && |b| == 8
    ensures Decrypt(c, ECB, reg, s + b).0 == Decrypt(c, ECB, reg, s).0 + c.D(b)
    decreases |s|
  {
    if s == [] {
      assert s + b == b && b[..8] == b && b[8..] == [];
    } else {
      assert (s + b)[..8] == s[..8] && (s + b)[8..] == s[8..] + b;
      DecryptLast(c, reg, s[8..], b);
    }
  }

  lemma EncryptNothing(c: Cipher)
    requires c.Valid() && c.bs == BLOCK
    ensures Encrypt(c, ECB, NONE, []).0 == []
  {
  }

  lemma DecryptNothing(c: Cipher)
    requires c.Valid() && c.bs == BLOCK
    ensures Decrypt(c, ECB, NONE, []).0 == []
  {
  }

  /** The first block holds the padding and what does not fill a block; whole blocks of payload follow. */
  lemma PaddedParts(payload: bytes)
    ensures var pad := PadLength(|payload|);
      && Padded(payload)[0..8] == [pad] + seq(pad - 1, _ => 0) + payload[..8 - pad]
      && Padded(payload)[8..] == payload[8 - pad..]
  {
  }

  /** BF_ecb_encrypt writes the block at `to`. */
  method PutBlock(b: bytes, out: array<byte>, to: nat)
    requires |b| == 8 && to + 8 <= out.Length
    modifies out
    ensures out[..] == old(out[..to]) + b + old(out[to + 8..])
  {
    forall i | 0 <= i < 8 {
      out[to + i] := b[i];
    }
  }

  /** out holds the ciphertext of the first k bytes of pt; now of 8 more. */
  method EncryptNext(c: Cipher, out: array<byte>, k: nat, b: bytes, ghost pt: bytes)
    requires c.Valid() && c.bs == BLOCK && k % 8 == 0 && k + 8 <= |pt| <= out.Length && b == pt[k..k + 8]
    requires out[..k] == Encrypt(c, ECB, NONE, pt[..k]).0
    modifies out
    ensures out[..k + 8] == Encrypt(c, ECB, NONE, pt[..k + 8]).0
    ensures out[k + 8..] == old(out[k + 8..])
  {
    hide Encrypt;
    ghost var before := out[..k];
    PutBlock(c.E(b), out, k);
    assert out[..k + 8] == before + c.E(b);
    EncryptLast(c, NONE, pt[..k], b);
    assert pt[..k] + b == pt[..k + 8];
  }

  /** buf holds the plaintext of the first k bytes of the wire, and the rest of the wire; now of 8 more. */
  method DecryptNext(c: Cipher, buf: array<byte>, off: nat, k: nat, ghost wire: bytes, ghost before: bytes, ghost behind: bytes)
    requires c.Valid() && c.bs == BLOCK && k % 8 == 0 && k + 8 <= |wire| && off == |before|
    requires buf[..] == before + Decrypt(c, ECB, NONE, wire[..k]).0 + wire[k..] + behind
    modifies buf
    ensures buf[..] == before + Decrypt(c, ECB, NONE, wire[..k + 8]).0 + wire[k + 8..] + behind
  {
    hide Decrypt;
    var b := buf[off + k..off + k + 8];
    ghost var done := Decrypt(c, ECB, NONE, wire[..k]).0;
    assert b == wire[k..][..8] == wire[k..k + 8];
    PutBlock(c.D(b), buf, off + k);
    assert buf[..] == before + done + c.D(b) + wire[k + 8..] + behind;
    DecryptLast(c, NONE, wire[..k], b);
    assert wire[..k] + b == wire[..k + 8];
    assert before + done + c.D(b) == before + (done + c.D(b));
  }

  class LegacyEncryptor {
    const c: Cipher
    const encBuf: array<byte>

    constructor (c: Cipher, size: nat)
      ensures this.c == c && fresh(encBuf) && encBuf.Length == size
    {
      this.c := c;
      encBuf := new byte[size](_ => 0);
    }

    /** legacy_encrypt_buf on buf[off..off + len]: the packet is encBuf[..n]. */
    method EncryptBuf(buf: array<byte>, off: nat, len: nat) returns (n: nat)
      requires c.Valid() && c.bs == BLOCK && buf != encBuf
      requires off + len <= buf.Length && len + 8 <= encBuf.Length
      modifies encBuf
      ensures n <= encBuf.Length && encBuf[..n] == Seal(c, buf[off..off + len])
    {
      hide Encrypt, Padded, NotAnd7;
      ghost var payload := buf[off..off + len];
      ghost var pt := Padded(payload);
      PadFormula(len);
      var pad := NotAnd7(len) + 1;
      var p := 8 - pad;
      assert pad == PadLength(len) && p <= len;
      var first := [pad] + seq(pad - 1, _ => 0) + buf[off..off + p];
      PaddedParts(payload);
      SliceOfSlice(buf[..], off, off + len, 0, p);
      SliceOfSlice(buf[..], off, off + len, p, len);
      assert pt[..0] == [];
      EncryptNothing(c);
      EncryptNext(c, encBuf, 0, first, pt);
      assert payload[p..] == payload[p..len];
      EncryptRest(buf, off + p, len - p, pt);
      n := len - p + 8;
    }

    /** The loop over the whole blocks that follow the first one. */
    method EncryptRest(buf: array<byte>, from: nat, rest: nat, ghost pt: bytes)
      requires c.Valid() && c.bs == BLOCK && buf != encBuf && rest % 8 == 0
      requires from + rest <= buf.Length && |pt| == 8 + rest <= encBuf.Length && pt[8..8 + rest] == buf[from..from + rest]
      requires encBuf[..8] == Encrypt(c, ECB, NONE, pt[..8]).0
      modifies encBuf
      ensures encBuf[..8 + rest] == Encrypt(c, ECB, NONE, pt).0
    {
      hide Encrypt;
      var k := 0;
      while k < rest
        invariant k % 8 == 0 && 0 <= k <= rest
        invariant encBuf[..8 + k] == Encrypt(c, ECB, NONE, pt[..8 + k]).0
        invariant pt[8..8 + rest] == buf[from..from + rest]
      {
        assert k + 8 <= rest by { assert (rest - k) % 8 == 0; }
        var b := buf[from + k..from + k + 8];
        SliceOfSlice(buf[..], from, from + rest, k, k + 8);
        SliceOfSlice(pt, 8, 8 + rest, k, k + 8);
        EncryptNext(c, encBuf, 8 + k, b, pt);
        k := k + 8;
      }
      assert pt[..8 + rest] == pt;
    }

    /** legacy_decrypt_buf on buf[off..off + len], in place: what it hands over is buf[at..at + n]. */
    method DecryptBuf(buf: array<byte>, off: nat, len: nat) returns (at: nat, n: nat)
      requires c.Valid() && c.bs == BLOCK
      requires off + len <= buf.Length && len % 8 == 0 && len > 0
      modifies buf
      ensures at + n <= buf.Length && buf[at..at + n] == Open(c, old(buf[off..off + len]))
      ensures buf[..off] == old(buf[..off]) && buf[off + len..] == old(buf[off + len..])
    {
      hide Decrypt;
      ghost var wire, before, behind := buf[off..off + len], buf[..off], buf[off + len..];
      DecryptNothing(c);
      assert buf[..] == before + Decrypt(c, ECB, NONE, wire[..0]).0 + wire[0..] + behind;
      var k := 0;
      while k < len
        invariant k % 8 == 0 && 0 <= k <= len
        invariant buf[..] == before + Decrypt(c, ECB, NONE, wire[..k]).0 + wire[k..] + behind
      {
        DecryptNext(c, buf, off, k, wire, before, behind);
        k := k + 8;
      }
      assert wire[..len] == wire;
      ghost var pt := Decrypt(c, ECB, NONE, wire).0;
      assert buf[..] == before + pt + behind;
      assert buf[off..off + len] == pt && buf[off] == pt[0];
      var p := buf[off];
      if p < 1 || p > 8 {
        return off, 0;
      }
      return off + p, len - p;
    }
  }

  /** A packet that opens to anything starts with a pad length from 1 to 8, which is how much is cut off; any other is
      dropped. */
  lemma OpenExactly(c: Cipher, wire: bytes)
    requires c.Valid() && c.bs == BLOCK && |wire| % 8 == 0 && wire != []
    ensures var pt := Decrypt(c, ECB, NONE, wire).0;
      if 1 <= pt[0] <= 8 then pt == pt[..pt[0]] + Open(c, wire) else Open(c, wire) == []
  {
    hide Decrypt;
  }

  /** What is sealed, byte by byte before encryption: the pad length, zeros, the payload, in whole blocks. */
  lemma PaddedBytes(payload: bytes)
    ensures var p := Padded(payload);
      && |p| % 8 == 0 && |payload| < |p| <= |payload| + 8
      && p[0] == |p| - |payload| && (forall i :: 1 <= i < |p| - |payload| ==> p[i] == 0)
      && p[|p| - |payload|..] == payload
  {
  }
}
