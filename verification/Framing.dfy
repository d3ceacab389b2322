/** Frames on a byte stream (generic/tcp_proto.c over read_n and write_n of lib.h) and in datagrams
    (generic/udp_proto.c). */
module Framing {
  import opened Bytes

  const FRAME_SIZE := 2048
  const FRAME_OVERHEAD := 100
  const FSIZE_LIMIT := 0x1000      // VTUN_FSIZE_MASK + 1: n & VTUN_FSIZE_MASK is n % FSIZE_LIMIT
  const BAD_FRAME := 0x8000

  /** What a frame reader reports: the returned code, and the bytes it put into the buffer. */
  datatype Report = Report(code: nat, data: bytes)

  /** One tcp_read of a stream: what it reports and what it leaves in the stream. */
  function ParseFrame(s: bytes): (r: (Report, bytes))
    ensures |r.0.data| <= FRAME_SIZE + FRAME_OVERHEAD
  {
    if |s| < 2 then (Report(0, []), [])
    else
      var word, rest := Value(s[..2]), s[2..];
      var flen := word % FSIZE_LIMIT;
      if flen > FRAME_SIZE + FRAME_OVERHEAD then
        (Report(BAD_FRAME, []), if flen <= |rest| then rest[flen..] else [])
      else if word >= FSIZE_LIMIT then (Report(word, []), rest)
      else if flen <= |rest| then (Report(flen, rest[..flen]), rest[flen..])
      else (Report(0, []), [])
  }

  /** The header and payload that tcp_write and udp_write send for a length word. */
  function FrameBytes(word: nat, payload: bytes): bytes {
    Word(word) + payload
  }

  /** A stream socket.  `incoming` is what the peer sends until it closes; how it is fragmented, and when a
      call is interrupted (EINTR, EAGAIN), is arbitrary, but `retries` bounds the interruptions. */
  class Stream {
    var incoming: bytes
    var outgoing: bytes
    var retries: nat

    constructor (incoming: bytes, retries: nat)
      ensures this.incoming == incoming && outgoing == [] && this.retries == retries
    {
      this.incoming, outgoing, this.retries := incoming, [], retries;
    }

    /** read(2): -1 when interrupted, 0 at the end of the stream, otherwise at least one byte. */
    method Read(buf: array<byte>, at: nat, len: nat) returns (w: int)
      requires len > 0 && at + len <= buf.Length
      modifies this`incoming, this`retries, buf
      ensures w == -1 ==> retries < old(retries) && incoming == old(incoming) && buf[..] == old(buf[..])
      ensures w == 0 ==> old(incoming) == [] == incoming
      ensures w == -1 || (0 <= w <= len && w <= |old(incoming)|)
      ensures w > 0 ==> incoming == old(incoming)[w..] && retries == old(retries)
      ensures w > 0 ==> buf[at..at + w] == old(incoming)[..w]
      ensures w >= 0 ==> buf[..at] == old(buf[..at]) && buf[at + w..] == old(buf[at + w..])
    {
      var interrupted: bool := *;
      if retries > 0 && interrupted {
        retries := retries - 1;
        return -1;
      }
      if incoming == [] {
        return 0;
      }
      w :| 1 <= w <= len && w <= |incoming|;
      forall i | 0 <= i < w {
        buf[at + i] := incoming[i];
      }
      assert buf[at..at + w] == incoming[..w];
      assert buf[..at] == old(buf[..at]);
      assert buf[at + w..] == old(buf[at + w..]);
      incoming := incoming[w..];
    }

    /** write(2): -1 when interrupted, otherwise at least one byte is taken. */
    method Write(buf: array<byte>, at: nat, len: nat) returns (w: int)
      requires len > 0 && at + len <= buf.Length
      modifies this`outgoing, this`retries
      ensures w == -1 || 1 <= w <= len
      ensures w == -1 ==> retries < old(retries) && outgoing == old(outgoing)
      ensures w > 0 ==> outgoing == old(outgoing) + buf[at..at + w] && retries == old(retries)
    {
      var interrupted: bool := *;
      if retries > 0 && interrupted {
        retries := retries - 1;
        return -1;
      }
      w :| 1 <= w <= len;
      outgoing := outgoing + buf[at..at + w];
    }

    /** read_n: exactly `len` bytes, or 0 if the stream ends before. */
    method ReadN(buf: array<byte>, at: nat, len: nat) returns (t: nat)
      requires at + len <= buf.Length
      modifies this`incoming, this`retries, buf
      ensures t == if len <= |old(incoming)| then len else 0
      ensures incoming == if len <= |old(incoming)| then old(incoming)[len..] else []
      ensures len <= |old(incoming)| ==> buf[at..at + len] == old(incoming)[..len]
      ensures buf[..at] == old(buf[..at]) && buf[at + len..] == old(buf[at + len..])
    {
      t := 0;
      while t < len
        invariant t <= len && t <= |old(incoming)| && incoming == old(incoming)[t..]
        invariant buf[at..at + t] == old(incoming)[..t]
        invariant buf[..at] == old(buf[..at]) && buf[at + len..] == old(buf[at + len..])
        decreases len - t, retries
      {
        var w := Read(buf, at + t, len - t);
        if w < 0 {
          continue;
        }
        if w == 0 {
          return 0;
        }
        assert buf[at..at + t + w] == buf[at..at + t] + buf[at + t..at + t + w];
        t := t + w;
      }
    }

    /** write_n: exactly `len` bytes. */
    method WriteN(buf: array<byte>, at: nat, len: nat) returns (t: nat)
      requires at + len <= buf.Length
      modifies this`outgoing, this`retries
      ensures t == len && outgoing == old(outgoing) + buf[at..at + len]
    {
      t := 0;
      while t < len
        invariant t <= len && outgoing == old(outgoing) + buf[at..at + t]
        decreases len - t, retries
      {
        var w := Write(buf, at + t, len - t);
        if w < 0 {
          continue;
        }
        assert buf[at..at + t] + buf[at + t..at + t + w] == buf[at..at + t + w];
        t := t + w;
      }
    }
  }

  /** tcp_write: the length word goes into the two bytes before the payload buf[off..]. */
  method TcpWrite(fd: Stream, buf: array<byte>, off: nat, len: nat) returns (n: nat)
    requires off >= 2 && off + len % FSIZE_LIMIT <= buf.Length
    modifies fd`outgoing, fd`retries, buf
    ensures n == len % FSIZE_LIMIT + 2
    ensures fd.outgoing == old(fd.outgoing) + FrameBytes(len, old(buf[off..off + len % FSIZE_LIMIT]))
    ensures forall i :: 0 <= i < buf.Length && !(off - 2 <= i < off) ==> buf[i] == old(buf[i])
  {
    buf[off - 2], buf[off - 1] := Word(len)[0], Word(len)[1];
    var count := len % FSIZE_LIMIT + 2;
    assert buf[off - 2..off - 2 + count] == FrameBytes(len, old(buf[off..off + len % FSIZE_LIMIT]));
    n := fd.WriteN(buf, off - 2, count);
  }

  /** The loop that reads an oversized frame to its end, FRAME_SIZE bytes at a time. */
  method SkipFrame(fd: Stream, buf: array<byte>, size: nat)
    requires buf.Length >= FRAME_SIZE
    modifies fd`incoming, fd`retries, buf
    ensures fd.incoming == if size <= |old(fd.incoming)| then old(fd.incoming)[size..] else []
  {
    var flen := size;
    while flen > 0
      invariant 0 <= flen <= size && size - flen <= |old(fd.incoming)|
      invariant fd.incoming == old(fd.incoming)[size - flen..]
    {
      var len := if flen < FRAME_SIZE then flen else FRAME_SIZE;
      var rlen := fd.ReadN(buf, 0, len);
      if rlen <= 0 {
        break;
      }
      flen := flen - rlen;
    }
  }

  /** tcp_read */
  method TcpRead(fd: Stream, buf: array<byte>) returns (code: nat)
    requires buf.Length >= FRAME_SIZE + FRAME_OVERHEAD
    modifies fd`incoming, fd`retries, buf
    ensures var (report, rest) := ParseFrame(old(fd.incoming));
      && code == report.code && fd.incoming == rest
      && |report.data| <= buf.Length && buf[..|report.data|] == report.data
  {
    hide Value;
    var header := new byte[2];
    var rlen := fd.ReadN(header, 0, 2);
    if rlen <= 0 {
      return 0;
    }
    assert header[..] == header[0..2] == old(fd.incoming)[..2];
    var word := Value(header[..]);
    var flen := word % FSIZE_LIMIT;
    if flen > FRAME_SIZE + FRAME_OVERHEAD {
      SkipFrame(fd, buf, flen);
      return BAD_FRAME;
    }
    if word >= FSIZE_LIMIT {
      return word;
    }
    code := fd.ReadN(buf, 0, flen);
    assert buf[0..flen] == buf[..flen];
  }

  /* ---------- whole streams ---------- */

  /** What the linker sends: data of up to 4095 bytes, and flags with no size. */
  datatype Frame = Data(payload: bytes) | Flag(flag: nat)

  predicate Proper(f: Frame) {
    match f
    case Data(payload) => 1 <= |payload| < FSIZE_LIMIT
    case Flag(flag) => FSIZE_LIMIT <= flag < 65536 && flag % FSIZE_LIMIT == 0
  }

  function Sent(f: Frame): bytes {
    match f
    case Data(payload) => FrameBytes(|payload|, payload)
    case Flag(flag) => FrameBytes(flag, [])
  }

  /** What the reader should report of it. */
  function Expected(f: Frame): Report {
    match f
    case Data(payload) =>
      if |payload| > FRAME_SIZE + FRAME_OVERHEAD then Report(BAD_FRAME, []) else Report(|payload|, payload)
    case Flag(flag) => Report(flag, [])
  }

  function SentAll(fs: seq<Frame>): bytes
    decreases |fs|
  {
    if fs == [] then [] else Sent(fs[0]) + SentAll(fs[1..])
  }

  function ExpectedAll(fs: seq<Frame>): (r: seq<Report>)
    ensures |r| == |fs|
  {
    seq(|fs|, i requires 0 <= i < |fs| => Expected(fs[i]))
  }

  function ParseFrames(s: bytes, n: nat): (seq<Report>, bytes)
    decreases n
  {
    if n == 0 then ([], s)
    else
      var (r, rest) := ParseFrame(s);
      var (rs, rest') := ParseFrames(rest, n - 1);
      ([r] + rs, rest')
  }

  /** The reader sees the word that was written, and behind it the payload. */
  lemma ParseSent(word: nat, payload: bytes, more: bytes)
    requires word < 65536
    ensures var s := FrameBytes(word, payload) + more;
      |s| >= 2 && Value(s[..2]) == word && s[2..] == payload + more
  {
    hide Word, Value;
    var s := FrameBytes(word, payload) + more;
    WordValue(word);
    assert s[..2] == Word(word) && s[2..] == payload + more;
  }

  lemma FrameRoundTrip(f: Frame, more: bytes)
    requires Proper(f)
    ensures ParseFrame(Sent(f) + more) == (Expected(f), more)
  {
    hide Value, FrameBytes;
    var word := if f.Data? then |f.payload| else f.flag;
    var payload := if f.Data? then f.payload else [];
    ParseSent(word, payload, more);
    assert (payload + more)[..|payload|] == payload && (payload + more)[|payload|..] == more;
  }

  /** Main result for streams: whatever sequence of frames is written, exactly their reports are read back,
      oversized ones as bad frames, and none of them disturbs what follows. */
  lemma {:induction false} StreamRoundTrip(fs: seq<Frame>, more: bytes)
    requires forall f :: f in fs ==> Proper(f)
    ensures ParseFrames(SentAll(fs) + more, |fs|) == (ExpectedAll(fs), more)
    decreases |fs|
  {
    hide Sent, ParseFrame;
    if fs == [] {
      assert SentAll(fs) + more == more;
    } else {
      assert SentAll(fs) + more == Sent(fs[0]) + (SentAll(fs[1..]) + more);
      FrameRoundTrip(fs[0], SentAll(fs[1..]) + more);
      StreamRoundTrip(fs[1..], more);
      assert ExpectedAll(fs) == [Expected(fs[0])] + ExpectedAll(fs[1..]);
    }
  }

  /** A reader stays in step with its stream exactly if no word carries both a flag and a readable size. */
  lemma FramesKeepStep(word: nat, payload: bytes, more: bytes)
    requires word < 65536 && |payload| == word % FSIZE_LIMIT
    ensures ParseFrame(FrameBytes(word, payload) + more).1 == more
      <==> word < FSIZE_LIMIT || |payload| == 0 || |payload| > FRAME_SIZE + FRAME_OVERHEAD
  {
    hide Word, Value;
    ParseSent(word, payload, more);
    assert (payload + more)[|payload|..] == more;
    assert |payload| > 0 ==> |payload + more| > |more|;
  }

  /* ---------- datagrams ---------- */

  /** udp_read: a datagram is cut to header and buffer size, and its length has to agree with the header. */
  function ParseDatagram(d: bytes): (r: Report)
    ensures |r.data| <= FRAME_SIZE + FRAME_OVERHEAD
  {
    var rlen := if |d| < 2 + FRAME_SIZE + FRAME_OVERHEAD then |d| else 2 + FRAME_SIZE + FRAME_OVERHEAD;
    if rlen < 2 then Report(BAD_FRAME, [])
    else
      var word := Value(d[..2]);
      if rlen - 2 != word % FSIZE_LIMIT then Report(BAD_FRAME, []) else Report(word, d[2..rlen])
  }

  class Datagrams {
    var connected: bool
    var incoming: seq<bytes>
    var outgoing: seq<bytes>
    var retries: nat

    constructor (incoming: seq<bytes>, retries: nat)
      ensures connected && this.incoming == incoming && outgoing == [] && this.retries == retries
    {
      connected, this.incoming, outgoing, this.retries := true, incoming, [], retries;
    }

    /** write(2) on a datagram socket: interrupted (-1), out of buffers (-2), failed otherwise (-3), or the whole
        datagram. */
    method Write(d: bytes) returns (w: int)
      modifies this`outgoing, this`retries
      ensures w >= -3 && (w == -1 ==> retries < old(retries))
      ensures w < 0 ==> outgoing == old(outgoing)
      ensures w >= 0 ==> w == |d| && outgoing == old(outgoing) + [d]
    {
      var interrupted: bool := *;
      if retries > 0 && interrupted {
        retries := retries - 1;
        return -1;
      }
      if * {
        return -2;
      }
      if * {
        return -3;
      }
      outgoing := outgoing + [d];
      w := |d|;
    }

    /** udp_write: 0 if the socket is not connected or out of buffers, -1 on any other error. */
    method UdpWrite(buf: array<byte>, off: nat, len: nat) returns (n: int)
      requires off >= 2 && off + len % FSIZE_LIMIT <= buf.Length
      modifies this`outgoing, this`retries, buf
      ensures n == -1 || n == 0 || n == len % FSIZE_LIMIT + 2
      ensures !connected ==> n == 0 && buf[..] == old(buf[..])
      ensures outgoing == if n <= 0 then old(outgoing)
        else old(outgoing) + [FrameBytes(len, old(buf[off..off + len % FSIZE_LIMIT]))]
      ensures forall i :: 0 <= i < buf.Length && !(off - 2 <= i < off) ==> buf[i] == old(buf[i])
    {
      if !connected {
        return 0;
      }
      buf[off - 2], buf[off - 1] := Word(len)[0], Word(len)[1];
      var count := len % FSIZE_LIMIT + 2;
      assert buf[off - 2..off - 2 + count] == FrameBytes(len, old(buf[off..off + len % FSIZE_LIMIT]));
      var d := buf[off - 2..off - 2 + count];
      var wlen := -1;
      while wlen == -1
        invariant outgoing == if wlen < 0 then old(outgoing) else old(outgoing) + [d]
        invariant -3 <= wlen < 0 || wlen == |d|
        modifies this`outgoing, this`retries
        decreases wlen == -1, retries
      {
        wlen := Write(d);
      }
      n := if wlen == -2 then 0 else if wlen == -3 then -1 else wlen;
    }

    /** udp_read on a connected socket with a datagram waiting. */
    method UdpRead(buf: array<byte>) returns (code: nat)
      requires incoming != [] && buf.Length >= FRAME_SIZE + FRAME_OVERHEAD
      modifies this`incoming, this`retries, buf
      ensures var report := ParseDatagram(old(incoming)[0]);
        && code == report.code && incoming == old(incoming)[1..]
        && |report.data| <= buf.Length && buf[..|report.data|] == report.data
    {
      hide Value;
      var interruptions: nat :| interruptions <= retries;
      retries := retries - interruptions;
      var d := incoming[0];
      incoming := incoming[1..];
      var rlen := if |d| < 2 + FRAME_SIZE + FRAME_OVERHEAD then |d| else 2 + FRAME_SIZE + FRAME_OVERHEAD;
      if rlen < 2 {
        return BAD_FRAME;
      }
      forall i | 2 <= i < rlen {
        buf[i - 2] := d[i];
      }
      code := Value(d[..2]);
      if rlen - 2 != code % FSIZE_LIMIT {
        return BAD_FRAME;
      }
      assert buf[..rlen - 2] == d[2..rlen];
    }
  }

  /** Main result for datagrams: one frame per datagram, the reader reports what the stream reader reports. */
  lemma DatagramRoundTrip(f: Frame, more: bytes)
    requires Proper(f)
    ensures ParseDatagram(Sent(f)) == Expected(f) == ParseFrame(Sent(f) + more).0
  {
    hide Word, Value, ParseFrame;
    FrameRoundTrip(f, more);
    var word := if f.Data? then |f.payload| else f.flag;
    WordValue(word);
    assert Sent(f)[..2] == Word(word);
    assert Sent(f)[2..] == if f.Data? then f.payload else [];
  }

  /* ---------- bytes on the wire, and frames that are not proper ---------- */

  /** The length word goes out high byte first. */
  lemma HeaderBytes(f: Frame)
    requires Proper(f)
    ensures var word := if f.Data? then |f.payload| else f.flag;
      && |Sent(f)| == 2 + (if f.Data? then |f.payload| else 0)
      && Sent(f)[0] == word / 256 && Sent(f)[1] == word % 256
      && Sent(f)[2..] == if f.Data? then f.payload else []
  {
    var word := if f.Data? then |f.payload| else f.flag;
    assert Word(word) == [word / 256, word % 256];
    hide Word;
  }

  /** A stream that ends inside a header or a frame reports nothing, or a bad frame if it was to be too long. */
  lemma Truncated(payload: bytes, k: nat)
    requires 1 <= |payload| < FSIZE_LIMIT && k < |payload| + 2
    ensures ParseFrame(Sent(Data(payload))[..k]) ==
      (if k >= 2 && |payload| > 2148 then Report(0x8000, []) else Report(0, []), [])
  {
    hide Word, Value;
    var s := Sent(Data(payload));
    ParseSent(|payload|, payload, []);
    assert s + [] == s;
    if k >= 2 {
      assert s[..k][..2] == s[..2] && |s[..k][2..]| == k - 2;
    }
  }

  /** A datagram whose length does not agree with its header, or that has none, is a bad frame; any other is reported
      with its word. */
  lemma DatagramExactly(word: nat, payload: bytes)
    requires word < 65536 && |payload| <= 2148
    ensures ParseDatagram(FrameBytes(word, payload)) ==
      if |payload| == word % 4096 then Report(word, payload) else Report(0x8000, [])
  {
    hide Word, Value;
    var d := FrameBytes(word, payload);
    ParseSent(word, payload, []);
    assert d + [] == d && payload + [] == payload;
  }

  lemma DatagramTooShort(d: bytes)
    requires |d| < 2
    ensures ParseDatagram(d) == Report(0x8000, [])
  {
  }
}
