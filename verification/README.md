# VTun: a verified model of the tunnel

VTun joins two hosts by a tunnel.  A server and a client authenticate each other with a challenge, the
server sends the settings of the link as a short string of flags, and then each end reads packets from its
device, runs them down a stack of modules (compression, encryption, shaping), and sends them as frames over
TCP or UDP; the other end runs what it receives up the same stack and writes it to its device.

This project models that data path and the handshake before it, and proves what they are for:

* **The encryptor and its resynchronisation protocol** (`lfd_encrypt.c`) is the core.  `BlockCipher` builds
  ECB, CBC, CFB and OFB (sections 6.1 to 6.4 of NIST SP 800-38A) on an arbitrary keyed permutation.
  `PacketCodec` says what one `encrypt_buf` and one `decrypt_buf` do; `Encryptor` is the array program, with
  headers built in the headroom, padding written in place and everything encrypted into `enc_buf`, proved
  against it.  `PacketLaws` has the laws of single packets, `Duplex` two ends on lossless channels, `Lossy`
  two ends on channels that lose packets, and `Recovery` the announcement of losses and the ranking argument
  that two ends in any valid states are in step again after at most 21 exchanges.  `EncBuf` is about what
  `enc_buf` holds, and sends again under a cleaned-up context.  `InTheClear` is a cipher under which whole runs can
  be followed; `Clockwork` and `ReplayRuns` are such runs, of which some recover and some never do.
* **The link** (`linkfd.c`).  `ModStack` is the doubly linked list of modules and the two loops over it,
  `Linker` the counted sends and receipts of one end, `FullDuplex` two linked ends with packets travelling
  in both directions at once, `StreamLink` the same with the frames on byte streams, and `EndToEnd` the way from
  the printed flags to equal stacks and the identity of the whole tunnel; `EncryptedTunnel` is its instance with
  the real ciphers.  `KeepAlive` is the idle logic of the loop and the alarm handler.
* **The transport** (`generic/tcp_proto.c`, `generic/udp_proto.c`, `lib.h`): `Framing`.
* **The handshake** (`auth.c`, `client.c`): `Flags`, `Handshake`, and `AuthBuffers` for the code that works on
  static buffers and on the host record; `Decimal` is the printing and reading of numbers they use.
* **The rest of the core**: `Shaper` (`lfd_shaper.c`), `Splitter` and `Template` (`split_args` and `subst_opt`
  in `lib.c`), `Legacy` (`lfd_legacy_encrypt.c`).

Code that changes state in place is modelled by methods on classes and arrays; each is proved equal to a
function, and the theorems are about those functions.

Where the code does not do what it is for, a lemma has the failing case and another the exact condition:

* **Control block** (`lfd_encrypt.c:665`, `lfd_encrypt.c:677`): an `unsigned long` is stored at offset 4 of the
  block.  With 8-byte blocks and an 8-byte `unsigned long` it overwrites the first four bytes of the payload with
  zeros.  The theorems about the encryptor speak of the payload as carried (`Carried`);
  `PacketLaws.CarriesEverything` says exactly when that is the payload itself.
* **Silenced requests** (`lfd_encrypt.c:609-612`, `lfd_encrypt.c:629-632`): REQ_INIT is set even when the
  encryptor's context has been cleaned up.  The next packet then is what `enc_buf` holds, and the request is
  forgotten (`Recovery.SilentPacket`; `Recovery.RequestSilenced` and `Recovery.FirstPacketSilences` reach such
  states).  `Recovery.LossIsAnnounced` is exact: the next packet announces a loss unless its context has been
  cleaned up under the request and `enc_buf` holds no header.
* **Replays**: such a packet repeats an old one.  A waiting receiver takes it exactly if the first two blocks of
  `enc_buf` read "ivec" (`EncBuf.WaitingTakes`), a receiver in SEQUENCE reads its control block exactly if its
  register is the one the held packet was encrypted from (`EncBuf.StreamIsRead`).  The assumption about chance
  leaves these cases out (`EncBuf.UntaggedExactly`), and they occur: `ReplayRuns.DuplicateDelivery` delivers a
  packet twice, and after `ReplayRuns.Livelock` two ends never recover although nothing is lost.
  `Lossy.LossyDuplex` is proved without replays; `Recovery.CleanRecovers` shows that there are none from a pair
  of ends that hold no packet under a cleaned-up context, which can be seen before the run.
* **The clock in `recv_msg`** (`lfd_encrypt.c:607`, `lfd_encrypt.c:618-619`): if the call that counts a first
  packet of gibberish lasts `MAX_GIBBERISH_TIME`, it re-initialises its own encryptor and no header is asked for.
  A lost header stays lost over an exchange exactly if that call is not brief (`Recovery.HeaderStaysLost`,
  `Recovery.LostExactly`); `Recovery.Recovers` asks only for 21 exchanges in a row in which those calls are
  brief and no packet is a replay, whatever comes before and after, and `Clockwork.ClockDecides` shows both cases.
* **Backslashes in templates** (`lib.c:212`): the byte that is tested belongs to the new buffer instead of the
  template.  A run can leave its buffers exactly if the template ends in a backslash (`Template.SafeExactly`),
  and the tested byte can lie outside the new buffer exactly if some option value is shorter than two characters
  (`Template.ReadsInsideExactly`).
* **Fixed buffers**: the printed flags can be longer than their 20 bytes (`auth.c:128`, `AuthBuffers.FlagsTooLong`);
  `split_args` stays inside argv exactly if it has room for the arguments and NULL (`Splitter.SplitArgs`).
* **The shaper**: the rate bound holds exactly while `bytes * 1000` cannot wrap (`Shaper.RateBoundExactly`).
* **Cipher number 0** (`auth.c:240-252`): it is printed as `E0`, which the client takes for the legacy cipher;
  equal stacks are proved exactly without it (`EndToEnd.SameCore`).  The flags also carry no speed of 0
  (`auth.c:256`), and a number equal to `ERANGE` makes the client refuse them (`Flags.FlagsRoundTrip`).

## Model

| member | source | states |
|---|---|---|
| BlockCipher.BlockRoundTrip | lfd_encrypt.c:326 | for each mode, decrypting a block under the sender's register gives the block back and leaves the sender's next register |
| BlockCipher.RoundTrip | lfd_encrypt.c:346 | the same for any number of whole blocks: plaintext and final chaining register agree |
| BlockCipher.SelfSynchronising | lfd_encrypt.c:346 | in CBC and CFB, after one ciphertext block two receivers with different registers agree on everything that follows |
| BlockCipher.ModeByBlocks | lfd_encrypt.c:326 | block by block, the ciphertext is what NIST SP 800-38A says: E of the block, of the block and the previous ciphertext, or the block combined with E of the previous ciphertext or with the iterated key stream; and the register that is left |
| Encryptor.Encryptor.constructor | lfd_encrypt.c:275-283 | INIT with no keyed context, or CODE with keyed contexts in ECB mode; counter, gibberish and flag as they start; the two buffers are distinct |
| Encryptor.Encryptor.SendMsg | lfd_encrypt.c:540-576 | in INIT the two blocks before the payload hold the ECB-encrypted "ivec" header, the context is keyed with the announced vector and the state is SEQUENCE; nothing else is written |
| Encryptor.Encryptor.SendIbMesg | lfd_encrypt.c:653-689 | the block before the payload holds the tag and the sequence number, REQ_INIT becomes SEQUENCE and asks for a packet; the payload is hit by the spill of the `unsigned long` and by nothing else |
| Encryptor.Encryptor.Pad | lfd_encrypt.c:319-325 | the plaintext is what stood there followed by the padding, and only the block behind it is written |
| Encryptor.Encryptor.Update | lfd_encrypt.c:326 | the ciphertext goes behind the header and the context moves on; a cleaned context writes nothing |
| Encryptor.Encryptor.Announce | lfd_encrypt.c:311-317 | enc_buf starts with the intact header although the control block has overwritten its second half in the input, and the control block stands directly before the payload |
| Encryptor.Encryptor.Finish | lfd_encrypt.c:319-331 | header, then ciphertext of the padded stream part; the counter moves on |
| Encryptor.Encryptor.EncryptAnnounced | lfd_encrypt.c:313-331 | once the announcement stands in front of the payload, the new state, enc_buf included, and the packet are those of the packet function |
| Encryptor.Encryptor.EncryptBuf | lfd_encrypt.c:305-332 | new state, the contents of enc_buf included, and packet are those of the packet function; the input changes only from two blocks before the payload to one block behind it, and the payload is left as it is carried |
| Encryptor.Encryptor.CountGibberish | lfd_encrypt.c:602-639 | counts, asks for a resynchronisation at the first, and forces a local re-initialisation at the count or time threshold |
| Encryptor.Encryptor.RecvMsg | lfd_encrypt.c:578-650 | for packets of any length: in INIT a packet that opens with "ivec" keys the context and loses its header, any other is counted and consumed; only the first two blocks of the input are written |
| Encryptor.Encryptor.RecvIbMesg | lfd_encrypt.c:692-737 | for any number of decrypted bytes: behind "seq#" a block is cut off, "rsyn" also re-initialises the encryptor, anything else drops the packet and starts a resynchronisation unless one is under way |
| Encryptor.Encryptor.RecvPacket | lfd_encrypt.c:578-650 | on packets as encryptors send them, what is consumed and what remains untouched behind it |
| Encryptor.Encryptor.RecvPlain | lfd_encrypt.c:692-737 | on the plaintext of such packets, what is left behind the control block |
| Encryptor.Encryptor.DecryptAny | lfd_encrypt.c:334-357 | for packets of any length, whatever the crypto library makes of them, the new state is that of the transition function over what is seen |
| Encryptor.Encryptor.CutPad | lfd_encrypt.c:349-356 | what is left in front of the padding, nothing if the pad byte is out of range |
| Encryptor.Encryptor.DecryptBuf | lfd_encrypt.c:334-357 | new state and delivered bytes are those of the packet function; only the first two blocks of the input are written |
| PacketLaws.EncodeKeepsValid | lfd_encrypt.c:305-332 | after any send the state is valid, CODE stays CODE and every other state becomes SEQUENCE; the decrypting half and the gibberish count are untouched |
| PacketLaws.PacketSize | lfd_encrypt.c:319-331 | a packet is whole blocks, at least two of them outside ECB, longer than its payload by at most four blocks |
| PacketLaws.PayloadSurvives | lfd_encrypt.c:665 | the control block leaves a payload alone iff 4 + sizeof(unsigned long) <= blocksize or the bytes it reaches were zero |
| PacketLaws.PayloadLost | lfd_encrypt.c:665 | a concrete packet that is altered, with 8-byte blocks and an 8-byte unsigned long |
| PacketLaws.CarriesEverything | lfd_encrypt.c:653-689 | every payload is carried unchanged iff the mode is ECB or 4 + sizeof(unsigned long) <= blocksize |
| PacketLaws.SequenceNumberReads | lfd_encrypt.c:665 | the stored number reads back in network byte order modulo 2^32 |
| PacketLaws.ControlBytes | lfd_encrypt.c:659-670 | every byte of a control block: the tag, the number high byte first, zeros |
| PacketLaws.PaddingBytes | lfd_encrypt.c:319-325 | every byte of the padding is its length, except that all but the last of a full block are the random ones |
| PacketLaws.UnpadExactly | lfd_encrypt.c:349-356 | a last byte from 1 to the blocksize is how much is cut off, any other drops the packet |
| PacketLaws.SendCounts | lfd_encrypt.c:329 | every packet adds one to the sequence number, modulo the size of an unsigned long |
| PacketLaws.SendAsks | lfd_encrypt.c:671-686 | a send raises send_a_packet iff it makes a request |
| PacketLaws.NumberArrives | lfd_encrypt.c:665 | bytes 4 to 8 of the block that a receiver in step decrypts are the sender's number modulo 2^32, high byte first |
| PacketLaws.UnpadPadded | lfd_encrypt.c:349-356 | removing the padding gives back the payload, also when a full block of it is random |
| PacketLaws.ReadControl | lfd_encrypt.c:692-717 | a control block is recognised by its tag and exactly the block is removed |
| PacketLaws.ReadBody | lfd_encrypt.c:692-717 | of a stream part the padded payload, as carried, is left |
| PacketLaws.ReadHeader | lfd_encrypt.c:583-600 | a receiver in INIT reads the vector that the sender announced |
| PacketLaws.ReadInStep | lfd_encrypt.c:305-357 | a receiver in step is handed what was carried and ends with the sender's new context, whatever the clock says |
| Duplex.ChainedFrame | lfd_encrypt.c:305-357 | packets under way stay readable whatever the receiver sends and the sender reads |
| Duplex.ChainedAppend | lfd_encrypt.c:305-332 | a packet sent behind those under way is readable when its turn comes |
| Duplex.SendKeepsFlow | lfd_encrypt.c:305-332 | a send keeps delivered plus under way equal to sent, and sender and receiver chained |
| Duplex.DeliverKeepsFlow | lfd_encrypt.c:334-357 | a delivery keeps the same, hands something over, and does not touch the receiver's encrypting half |
| Duplex.ForwardKeepsLossless | lfd_encrypt.c:305-357 | every step of either end keeps both directions |
| Duplex.RunKeepsLossless | lfd_encrypt.c:305-357 | so does every run without losses |
| Duplex.LosslessDuplex | lfd_encrypt.c:540-707 | over every interleaving of sends and deliveries in both directions, in every mode, the payloads handed over are a prefix of those sent; nobody ever sends "rsyn"; once a channel is empty everything is delivered and the receiver holds the sender's context |
| Duplex.NumbersCount | lfd_encrypt.c:329 | over every run, whatever is lost, the k-th packet of each end is sent with the k-th number after its first |
| Lossy.ReadOutOfStep | lfd_encrypt.c:692-736 | without a false tag a packet that is out of step is not delivered, and how it changes the receiver |
| Lossy.DeliverOne | lfd_encrypt.c:334-357 | a delivery hands over the payload of its own packet or nothing |
| Lossy.DeliverKeepsOrder | lfd_encrypt.c:578-649 | a delivery keeps delivered plus under way a subsequence of sent |
| Lossy.LossKeepsOrder | lfd_encrypt.c:578-649 | so does losing any packet under way |
| Lossy.RunKeepsOrdered | lfd_encrypt.c:578-736 | so does every run |
| Lossy.LossyDuplex | lfd_encrypt.c:334-736 | over every run with arbitrary losses in both directions, what each end is handed is a subsequence of what its peer sent, whatever resynchronisations happen, if no out-of-step block decrypts to a tag by chance and no delivery is a replay |
| EncBuf.SameBlock | lfd_encrypt.c:346 | in a chaining mode a block reads the same under two registers iff they are equal |
| EncBuf.EncodeRemembers | lfd_encrypt.c:311-327 | after every send enc_buf starts with the last packet sent under a keyed context: with its header, or with a control block under the register it was encrypted from |
| EncBuf.RunRemembers | lfd_encrypt.c:305-357 | so do both ends, and the senders of all deliveries, in every run |
| EncBuf.WaitingTakes | lfd_encrypt.c:583-600 | under a cleaned-up context a waiting receiver takes the packet iff the first two blocks of the sender's enc_buf read "ivec" |
| EncBuf.StreamIsRead | lfd_encrypt.c:692-717 | a receiver in SEQUENCE reads the control block held there, and so a tag, iff its register is the one that packet was encrypted from |
| EncBuf.UntaggedExactly | lfd_encrypt.c:583-717 | a packet out of step reads as no header or tag iff none appears by chance and it is no replay |
| EncBuf.ReplayDelivers | lfd_encrypt.c:334-357 | for every cipher, the bytes of an earlier packet hand over its payload again to a receiver that is in step with it |
| ReplayRuns.DuplicateDelivery | lfd_encrypt.c:305-737 | a run from the start in which no tag appears by chance and a payload is delivered twice: what is handed over is no subsequence of what was sent |
| ReplayRuns.StuckForever | lfd_encrypt.c:305-737 | two ends that hold headers under cleaned-up contexts exchange any number of packets without loss and stay so |
| ReplayRuns.Livelock | lfd_encrypt.c:305-737 | a run from the start that leads there, after which the ends have not recovered after any number of exchanges without loss and with brief calls |
| Recovery.DecodeIsReceive | lfd_encrypt.c:334-357 | decoding a packet of whole blocks is an instance of the transition function over arbitrary header, tag and register |
| Recovery.ReceiveTransitions | lfd_encrypt.c:606-638 | for every packet whatever its length and contents: the invariant holds (gibberish below MAX_GIBBERISH, and counted only in INIT), CODE is never left, SEQUENCE is left only in a step that sets REQ_INIT, and a pending INIT or REQ_INIT is kept |
| Recovery.GarbageCounts | lfd_encrypt.c:606-638 | each packet that is no header is counted at a waiting end; the tenth, or one two seconds after the first, re-initialises the encryptor and starts again, and the first sets REQ_INIT |
| Recovery.ReceiveAsks | lfd_encrypt.c:612-623 | for every packet, send_a_packet is never taken down, and raised iff such a packet begins or completes a count |
| Recovery.GarbageAsks | lfd_encrypt.c:602-639 | over any arrivals, an end that has counted garbage, or been re-initialised because of it, has the flag up |
| Recovery.AnnouncementPends | lfd_encrypt.c:578-736 | no arrivals, however many, withdraw a pending announcement |
| Recovery.SendAnnounces | lfd_encrypt.c:566-685 | unless its context has been cleaned up under a request, the packet sent in INIT or REQ_INIT opens with "ivec", or with "rsyn" under the sender's context, and the state becomes SEQUENCE |
| Recovery.SilentPacket | lfd_encrypt.c:609-612 | with such a context, and no header in enc_buf, there is a packet that announces nothing, and the request is forgotten |
| Recovery.AnnouncesExactly | lfd_encrypt.c:566-685 | every next packet announces what is pending iff the context has not been cleaned up under a request or enc_buf holds a header |
| Recovery.LossIsAnnounced | lfd_encrypt.c:692-730 | whenever a decryptor leaves SEQUENCE, on any packet, an announcement stays pending over any arrivals, and every next packet of its end makes it iff the context has not been cleaned up under the request or enc_buf holds a header |
| Recovery.RequestSilenced | lfd_encrypt.c:602-639 | from the state right after a loss, three packets that are no headers clean the context up under the request |
| Recovery.FirstPacketSilences | lfd_encrypt.c:609-612 | so does one such packet before the encryptor has been keyed |
| Recovery.PassIsHop | lfd_encrypt.c:583-641 | one packet that is no replay and its reading, brief if it counts a first packet of gibberish, is one step of the abstract pair of phases, counts and in-step bits |
| Recovery.RankDrops | lfd_encrypt.c:583-734 | one exchange strictly lowers the rank of an unsteady pair and keeps a steady one steady |
| Recovery.ExchangeRanked | lfd_encrypt.c:583-734 | the same for the concrete encryptors |
| Recovery.RecoversByRank | lfd_encrypt.c:583-734 | as many exchanges as the rank says suffice |
| Recovery.SteadyIsTimely | lfd_encrypt.c:583-641 | a pair in step needs no brief calls, and replays nothing |
| Recovery.StaysSteady | lfd_encrypt.c:583-734 | and stays in step without losses, whatever the clock says |
| Recovery.Recovers | lfd_encrypt.c:583-734 | from every pair of valid states, in any run without loss that contains 2 * MAX_GIBBERISH + 1 exchanges in a row without a replay, in which calls that count a first packet of gibberish are brief, both ends end in SEQUENCE and each decryptor holds its peer's context |
| Recovery.PassKeepsClean | lfd_encrypt.c:305-357 | from a pair that holds no packet under a cleaned-up context no packet is a replay, and the pair stays so |
| Recovery.CleanRecovers | lfd_encrypt.c:583-734 | so such a pair recovers whenever those calls are brief |
| Recovery.HeaderStaysLost | lfd_encrypt.c:602-639 | one exchange leaves a lost header lost iff the receiver's call is not brief |
| Recovery.LostExactly | lfd_encrypt.c:602-639 | it stays lost throughout a run iff none of those calls is brief |
| InTheClear.SimpleIsHonest | lfd_encrypt.c:540-737 | with the cipher chosen no packet reads as a tag by chance, in all states of its runs |
| InTheClear.RunIsPlain | lfd_encrypt.c:540-737 | so every run with it satisfies the assumption about chance |
| Clockwork.ClockDecides | lfd_encrypt.c:602-639 | after one lost header, runs of any length with the same packets, on a clock that does not go back: with brief calls both ends recover within 21 exchanges, with long ones the header stays lost |
| Framing.Stream.ReadN | lib.h:71-87 | exactly the next `len` bytes under arbitrary short reads and interruptions, or 0 at the end of the stream; the rest of the buffer is untouched |
| Framing.Stream.WriteN | lib.h:90-106 | exactly the given bytes are appended, under arbitrary short writes and interruptions |
| Framing.TcpWrite | generic/tcp_proto.c:57-67 | the frame goes out whole, and only the two bytes before the payload are written |
| Framing.SkipFrame | generic/tcp_proto.c:81-88 | the loop consumes exactly `flen` bytes |
| Framing.TcpRead | generic/tcp_proto.c:69-99 | code, buffer and rest of the stream are those of the frame parser |
| Framing.ParseSent | generic/tcp_proto.c:63-79 | the reader sees the length word that was written, and the payload behind it |
| Framing.FrameRoundTrip | generic/tcp_proto.c:57-99 | a data or flag frame in front of anything is reported as sent, or as a bad frame if oversized, and exactly it is consumed |
| Framing.StreamRoundTrip | generic/tcp_proto.c:57-99 | any sequence of frames comes back as the sequence of their reports, oversized ones as bad frames, all others intact |
| Framing.FramesKeepStep | generic/tcp_proto.c:92-95 | the reader stays in step with the stream iff the length word does not carry a flag together with a readable size |
| Framing.Datagrams.UdpWrite | generic/udp_proto.c:62-86 | one datagram with the whole frame; nothing and 0 when out of buffers or not connected, nothing and a negative number on other errors; only the two bytes before the payload are written |
| Framing.Datagrams.UdpRead | generic/udp_proto.c:112-132 | code and buffer are those of the datagram parser, and one datagram is consumed |
| Framing.DatagramRoundTrip | generic/udp_proto.c:62-133 | the datagram reader reports of every frame what the stream reader reports |
| Framing.HeaderBytes | generic/tcp_proto.c:61-66 | the two bytes in front of a frame, high byte first, and the payload behind them |
| Framing.Truncated | generic/tcp_proto.c:74-98 | a stream that ends inside a frame reports nothing, or a bad frame if it was to be too long |
| Framing.DatagramExactly | generic/udp_proto.c:125-131 | a datagram is reported with its word iff its length agrees with the word, and is a bad frame otherwise |
| ModStack.LfdList.AddMod | linkfd.c:66-77 | the module is appended, next from the head still visits the modules in order and prev from the tail in reverse, and no module's state changes |
| ModStack.LfdList.RunDown | linkfd.c:108-119 | output and module states are those of running down the sequence of modules |
| ModStack.LfdList.RunUp | linkfd.c:122-133 | output and module states are those of running up the sequence of modules |
| ModStack.DownStep | linkfd.c:113-117 | one turn of the loop down keeps its invariant |
| ModStack.UpStep | linkfd.c:127-131 | one turn of the loop up keeps its invariant |
| ModStack.TwoModules | linkfd.c:108-133 | what goes down passes the module nearer the head first, what comes up the one nearer the tail, and one that fails or hands over nothing is the last |
| ModStack.UpUndoesDown | linkfd.c:108-133 | for stateful modules that match, running up after running down gives the packet back and leaves the ends in step |
| ModStack.FifoIdentity | linkfd.c:108-133 | over a FIFO, the first k packets that arrive come up as the first k that were sent |
| ModStack.DownPastTail | lfd_shaper.c:62-69 | a pass-through module at the tail does not change what goes down |
| ModStack.UpPastTail | lfd_shaper.c:62-69 | nor what comes up |
| Linker.Link.Send | linkfd.c:340-345 | module states, byte_out, comp_out and the frame are those of one send; the dummy packet of linkfd.c:274-284 is counted the same way |
| Linker.Link.Receive | linkfd.c:317-326 | module states, comp_in, byte_in and what is written to the device are those of one receipt |
| FullDuplex.CoreReads | linkfd.c:108-133 | if every module obeys its law in both halves of its state, so does the stack |
| FullDuplex.SetupReads | linkfd.c:373-388 | the same when either end has a shaper behind its modules |
| FullDuplex.LawfulMatches | linkfd.c:108-133 | modules that obey this law match in the sense of one direction, so that FifoIdentity holds of them |
| FullDuplex.ChainedFrame | linkfd.c:108-133 | packets under way stay readable whatever the other direction does |
| FullDuplex.ChainedAppend | linkfd.c:340-345 | a send puts a readable packet behind those under way and leaves the sender's receiving half alone |
| FullDuplex.ChainedFirst | linkfd.c:317-326 | a receipt gives back what went in at the other end and leaves the receiver's sending half alone |
| FullDuplex.ForwardKeepsLinked | linkfd.c:274-345 | every step of either end keeps delivered plus under way equal to sent, and the counters conserved, in both directions |
| FullDuplex.LinkConserves | linkfd.c:274-345 | over every interleaving at both ends, dummy packets included: each end has written exactly the first packets its peer sent, comp_out equals the peer's comp_in plus the frames under way, and byte_out the peer's byte_in plus the packets under way |
| StreamLink.FirstFrame | generic/tcp_proto.c:69-99 | the first frame under way is read whole, and the others stay |
| StreamLink.ForwardRefines | linkfd.c:274-345 | every step with frames on a byte stream does what it does with frames handed over whole |
| StreamLink.RunRefines | linkfd.c:274-345 | so does every run |
| StreamLink.StreamConserves | linkfd.c:274-345 | over every interleaving with one byte stream each way: each end has written a prefix of what its peer sent, and all of it with equal counters once no bytes are under way |
| EndToEnd.BuildStack | linkfd.c:373-388 | the list holds exactly the modules the flags call for, in order |
| EndToEnd.StackIs | linkfd.c:373-388 | exactly the modules the flags call for, each once, compression before encryption and the shaper last |
| EndToEnd.SameCore | linkfd.c:373-388 | a client that parsed the server's printed flags builds the same transforming modules iff the server does not encrypt with cipher number 0 |
| EndToEnd.HandshakeSucceeds | auth.c:318-429 | a client that is to be admitted by a server whose flags fit their buffer and contain no ERANGE succeeds, and builds the server's transforming modules |
| EndToEnd.TunnelIsIdentity | linkfd.c:363-427 | then both ends build the same modules up to the shaper, and the whole link conserves packets and counters in both directions |
| EndToEnd.LegacyIsLawful | lfd_legacy_encrypt.c:86-124 | the legacy cipher obeys the law of a module |
| EndToEnd.EncryptorIsLawful | lfd_encrypt.c:305-357 | the encryptor obeys it, in both halves of its state, if its control block holds an unsigned long |
| EndToEnd.EncryptorStarts | lfd_encrypt.c:275-283 | two freshly allocated encryptors are in step both ways |
| EndToEnd.EncryptedFrameFits | lfd_encrypt.c:64 | a packet read with the limit of linkfd.c:332 and encrypted fits enc_buf, is never oversized (generic/tcp_proto.c:81), touches no flag bit, and is reported whole by the peer's reader |
| EncryptedTunnel.MachineIsLawful | linkfd.c:373-388 | the real encryptor, the legacy cipher and the shaper obey the laws the tunnel asks for, and start in step |
| EncryptedTunnel.StackFits | lfd_encrypt.c:64 | whatever the stack of a host without compression makes of a packet of the device fits a frame |
| EncryptedTunnel.TunnelOverStreams | linkfd.c:363-427 | from the handshake to byte streams, with the real ciphers: the client succeeds, each end writes a prefix of what its peer sent, and all of it with equal counters once no bytes are under way |
| KeepAlive.Monitor.OnAlarm | linkfd.c:182-209 | the timers, the verify flag and the next alarm |
| KeepAlive.Monitor.OnPass | linkfd.c:260-272 | quiet, echo or timeout, and the new idle count |
| KeepAlive.Monitor.OnInput | linkfd.c:288-289 | a frame from the network resets both |
| KeepAlive.AlarmRunsTimers | linkfd.c:187-208 | both timers run down independently, a verify is requested iff that of the keep-alive runs out, and the next alarm is for the first timer that is not zero |
| KeepAlive.VerifyBlock | linkfd.c:260-272 | an echo is sent from the second verify on without input, the idle count goes up with each, and a frame starts it again |
| KeepAlive.DroppedExactly | linkfd.c:182-272 | the link is dropped at the (ka_maxfail + 2)-th verify without input and not before, after exactly ka_maxfail echo requests |
| KeepAlive.StartIsPrompt | linkfd.c:401-407 | a session starts with the next verify due within a period |
| KeepAlive.StaysPrompt | linkfd.c:182-272 | that is kept by alarms, passes and input |
| KeepAlive.AlarmKeepsOnTime | linkfd.c:190-194 | an alarm requests the verify in time |
| KeepAlive.PassKeepsOnTime | linkfd.c:260-272 | and it is processed before the next is due |
| KeepAlive.DeadPeerDropped | linkfd.c:182-272 | a peer that falls silent is dropped at most (ka_maxfail + 2) * (ka_interval + 1) + ka_interval seconds after its last frame |
| KeepAlive.TimeAdvances | linkfd.c:182-272 | while the link is not dropped an event is always possible, and time advances |
| KeepAlive.DropHappens | linkfd.c:182-272 | whatever has happened since the last frame, the run can go on until the link is dropped |
| Shaper.Shaper.Init | lfd_shaper.c:47-59 | the configured speed in bytes plus 400, as an unsigned long, and no bytes counted |
| Shaper.Shaper.Counter | lfd_shaper.c:62-69 | the frame is counted |
| Shaper.Shaper.Available | lfd_shaper.c:97-131 | refused above the maximal speed; accepted in a later second than the last reset, it resets |
| Shaper.TimerSub | lfd_shaper.c:81-88 | the difference of two times in microseconds, normalised |
| Shaper.Tv2Ms | lfd_shaper.c:72-76 | whole milliseconds as an unsigned long, exact when they fit it, never 0 and never more than one too many |
| Shaper.Accepted | lfd_shaper.c:97-131 | what an accepted request says about the bytes counted since the last reset |
| Shaper.RunStaysWithin | lfd_shaper.c:62-131 | the windows already reset and the current one are bounded throughout every run |
| Shaper.FirstRequest | lfd_shaper.c:97-131 | the first request is always accepted and begins the first window |
| Shaper.RateBound | lfd_shaper.c:47-131 | 1000 * total <= (max_speed + 1) * (elapsed ms + windows) + 1000 * F over every run with frames of at most F bytes |
| Shaper.BoundBreaks | lfd_shaper.c:109 | a run that exceeds the bound whenever the product can wrap |
| Shaper.RateBoundExactly | lfd_shaper.c:97-131 | the bound holds of every run iff 1000 * (Reach(max_speed) + F) fits an unsigned long |
| Shaper.ConfiguredSpeed | lfd_shaper.c:47-53 | with 64-bit counters that is so for every configurable speed |
| Shaper.AvailExactly | lfd_shaper.c:97-131 | without division: a request is accepted iff 1000 * bytes < (max_speed + 1) * ms, and an accepted one resets iff it comes in a later second |
| Shaper.SpeedConfigured | lfd_shaper.c:50-53 | 8 * max_speed is 1024 * spd_out + 3200, to within a kilobyte |
| Shaper.ConfiguredRate | lfd_shaper.c:47-131 | from shaper_init on, 8000 * total <= (1024 * spd_out + 3208) * (elapsed ms + windows) + 8000 * F |
| Flags.ReadNumber | auth.c:223-260 | a letter with a printed number sets its flag and field, or is refused if the number is ERANGE |
| Flags.ReadFlags | auth.c:126-273 | parsing printed flags, with any text around them, succeeds iff no printed number is ERANGE |
| Flags.NumbersBack | auth.c:223-260 | level, cipher and output speed of the client afterwards |
| Flags.FlagsBack | auth.c:190-273 | every flag bit of the client afterwards |
| Flags.FlagsRoundTrip | auth.c:126-273 | a client with cleared flags (client.c:123-124) succeeds iff no number is ERANGE, and then has the server's protocol, type, compression, encryption and keep-alive with level and cipher, and shapes at the server's non-zero input speed |
| Flags.HeadArrives | auth.c:126-273 | for a host with one protocol bit and one type bit, the client ends with exactly these bits |
| Flags.LettersPrinted | auth.c:130-180 | each letter is printed iff the host has what it stands for, and no other character but those of numbers |
| Flags.PrintedExamples | auth.c:185-188 | the documented example and three others, character by character |
| Flags.BracketsNeeded | auth.c:195-272 | no text without both brackets, in order, is accepted |
| Flags.CharacterRead | auth.c:199-269 | what each character without a number does in front of any text, 'F' and unknown ones included |
| Flags.NumberRead | auth.c:223-260 | what each with a number does in front of any text: missing numbers, ERANGE, zero, and the int that strtol's long becomes |
| Decimal.ReadPrinted | auth.c:160-176 | what %d prints of an int, strtol reads back, consuming exactly it |
| Decimal.ReadNothing | auth.c:238-252 | where no number starts, strtol consumes nothing and returns 0 |
| Decimal.BlanksSkipped | auth.c:223-260 | leading blanks only move the end of what strtol reads |
| Decimal.NumberEnds | auth.c:223-260 | strtol reads one digit at least, and up to the first character that is none |
| AuthBuffers.Buffer.Bf2cf | auth.c:126-183 | on the buffer as any number of earlier calls leave it: the printed flags stand behind what stood before the pointer, the last closing bracket being overwritten |
| AuthBuffers.Buffer.Bf2cfTwice | auth.c:126-183 | what a second call in the same process leaves: the first flags without their bracket, then the second |
| AuthBuffers.FlagsTooLong | auth.c:128 | a host whose printed flags and terminator do not fit the 20-byte buffer |
| AuthBuffers.Cl2cs | auth.c:280-296 | two letters a byte between angle brackets, terminated |
| AuthBuffers.Cs2cl | auth.c:298-315 | the challenge that the text holds, or refusal with the buffer untouched |
| AuthBuffers.HostRecord.TakeNumber | auth.c:223-260 | the host fields and the characters consumed for a letter with a number |
| AuthBuffers.HostRecord.TakeLetter | auth.c:199-269 | the host flags for a letter without one |
| AuthBuffers.HostRecord.Cf2bf | auth.c:190-273 | result and host record are those of the parser |
| Handshake.LettersBack | auth.c:309-312 | the two letters of a byte read back as the byte |
| Handshake.ChallengeRoundTrip | auth.c:280-315 | every printed challenge, with text around it, reads back as itself |
| Handshake.SplitMessage | auth.c:334-339 | a message "first: second" is taken apart into its two words by the strtok calls |
| Handshake.EncryptInPlace | auth.c:70-79 | the challenge is encrypted in place block by block |
| Handshake.DecryptInPlace | auth.c:81-90 | the challenge is decrypted in place block by block |
| Handshake.AuthServer | auth.c:318-388 | messages sent and host returned are those of the server's run, after at most two reads |
| Handshake.AuthClient | auth.c:391-429 | messages sent and success are those of the client's run, after at most three reads |
| Handshake.GrantedExactly | auth.c:318-388 | for every sequence of messages, a server grants a host iff the first names it, the second is an answer that its password makes of this session's challenge, and the lock is granted |
| Handshake.ServerAnswers | auth.c:318-388 | for every sequence of messages, what the server sends after its greeting |
| Handshake.SucceedsExactly | auth.c:391-429 | for every sequence of messages, a client succeeds iff the first is a greeting, the second an OK with a challenge, and the third an OK with flags that parse; and what it sends |
| Handshake.GreetingText | auth.c:328 | the greeting is its text cut to 48 characters |
| Handshake.LettersAre | auth.c:286-293 | the letters of a challenge, high nibble first, from 'a' to 'p' |
| Handshake.ChallengeHeld | auth.c:298-315 | any text that is read as a challenge holds its 32 letters behind the first bracket |
| Handshake.WordsFound | auth.c:334-339 | any message that is taken apart contains the two words, separated by blanks and colons, and neither contains one |
| Handshake.ServeAdvances | auth.c:341-378 | a server that goes on has moved from the name to the challenge |
| Handshake.RespondAdvances | auth.c:400-425 | a client that goes on has moved one stage |
| Handshake.GreetingRead | auth.c:401-407 | the client answers the greeting with its host name |
| Handshake.NameRead | auth.c:342-351 | the server takes exactly the name that was sent and answers with its challenge |
| Handshake.ChallengeRead | auth.c:409-418 | the client answers with the encrypted challenge |
| Handshake.ResponseRead | auth.c:353-376 | the server accepts iff the host is known, the answer decrypts to its challenge, and the lock is granted |
| Handshake.FlagsRead | auth.c:420-423 | the client succeeds iff the server accepted and the flags parse |
| Handshake.HandshakeAgreement | auth.c:318-429 | over an honest channel, for every challenge and every host name that fits: the server accepts iff the client's reply decrypts under its password to this session's challenge and the lock is granted, and the client succeeds iff the server accepts and its flags parse |
| Handshake.EqualPasswords | auth.c:70-90 | equal passwords satisfy the cryptographic check |
| Legacy.PadFormula | lfd_legacy_encrypt.c:92 | the pad length the encryptor computes, (~len & 7) + 1, is 8 - len % 8 |
| Legacy.PaddedParts | lfd_legacy_encrypt.c:94-99 | what the first block holds, and that whole blocks of payload follow |
| Legacy.OpenSeal | lfd_legacy_encrypt.c:86-124 | every payload, of any length, comes back exactly |
| Legacy.PaddedBytes | lfd_legacy_encrypt.c:92-99 | every byte of the padded payload: the pad length, zeros, the payload |
| Legacy.OpenExactly | lfd_legacy_encrypt.c:115-123 | a first byte from 1 to 8 is how much is cut off, any other drops the packet |
| Legacy.LegacyEncryptor.EncryptBuf | lfd_legacy_encrypt.c:86-106 | the first block padded in front and the loop over the rest give the encryption of the padded payload |
| Legacy.LegacyEncryptor.DecryptBuf | lfd_legacy_encrypt.c:108-124 | decrypting in place leaves what was sealed, nothing if the pad byte is bad, and everything around the packet as it was |
| Splitter.ShiftRight | lib.c:249 | the argument moves one place to the right, and nothing else changes |
| Splitter.Squeeze | lib.c:248-256 | removing a quote or backslash keeps the layout: earlier arguments read as before |
| Splitter.Blank | lib.c:236-242 | a blank ends a plain argument with a terminator, is taken into a quoted one, and changes nothing outside |
| Splitter.Quote | lib.c:244-257 | a quote begins a quoted argument behind it, or moves the current argument over itself and turns plain into quoted and quoted into plain |
| Splitter.Backslash | lib.c:259-272 | a backslash takes the next character as it is, or nothing at the end of the string |
| Splitter.SplitArgs | lib.c:229-280 | for an argv of any length, the run writes outside it iff it has no room for the arguments and NULL; otherwise every argv[i] reads as the i-th argument of the tokenizer and NULL follows; nothing behind the string is written |
| Splitter.ArgumentsBound | lib.c:229-280 | a string of n characters has at most (n + 1) / 2 arguments |
| Splitter.SplitCommandLine | lib.c:229-280 | any list of arguments, quoted and escaped, is split into exactly those arguments |
| Splitter.SplitWritten | lib.c:229-280 | arguments written with bare characters, backslashes and quotations in any mixture, and any blanks between them, are split into what was meant |
| Splitter.Unfinished | lib.c:229-280 | an unclosed quotation ends with the string, and a backslash at its end stands for nothing |
| Template.RunExpands | lib.c:164-208 | a template without backslashes ends as its recursive expansion, whatever memory holds: an unknown %X loses its percent sign, null options vanish |
| Template.LettersExpand | lib.c:169-193 | which option each letter stands for, and that a percent sign before any other is lost |
| Template.BackslashKeeps | lib.c:210-217 | a backslash is kept, and with it the next character iff the tested byte is not zero |
| Template.WalkOverruns | lib.c:210-217 | options and contents of memory with which a template that ends in a backslash is left |
| Template.SafeExactly | lib.c:210-217 | a template is safe with all options and all contents of memory iff it does not end in a backslash |
| Template.ShrinkingReadsOutside | lib.c:212 | a template with which a value shorter than two characters makes the tested byte lie outside the buffer |
| Template.ReadsInsideExactly | lib.c:212 | with given options the tested byte lies in the buffer for all templates iff no value is shorter than two characters |
| Template.SubstOpt | lib.c:151-222 | for every template, backslashes included, the method runs as the loop is specified, the buffer has room through every reallocation, and it stops exactly where the code would leave the template; if an allocation fails the template is returned |

## Left out

- The crypto library, zlib and LZO inside: ciphers are arbitrary permutations, compressors any modules that obey the law of `FullDuplex.Lawful`.  `EVP_EncryptUpdate` on a cleaned context is taken to leave the output buffer as it is.
- Encryptor.Encryptor.DecryptBuf: what it hands over is stated for packets of whole blocks (two at least outside ECB); for any other length, which the source does not check for, `Encryptor.Encryptor.DecryptAny` states the new state and not the bytes, which depend on the crypto library.
- PacketLaws.SequenceNumberReads: for a little-endian machine; elsewhere the bytes of the number stand in another order.
- Lossy.LossyDuplex: assumes of each delivery that a packet which is out of step does not read as "seq#", "rsyn" or "ivec" by chance, and that it is no replay; the code does replay, as `ReplayRuns.DuplicateDelivery` shows.  Channels lose packets but do not reorder or repeat them.
- Recovery.Recovers: the ends send one packet each in turn, under the same assumption as above; schedules in which a dummy packet lets one end send twice in a row are not covered.
- Framing.Stream.ReadN: interruptions are finitely many, other errors of read(2) and cancelled I/O are not modelled, and a stream that ends inside a frame only returns 0.
- Framing.Datagrams.UdpRead: the late connection to an unknown peer (generic/udp_proto.c:96-110) is not modelled.
- Shaper.RateBound: covers the data path; the dummy packet of linkfd.c:274-284 is sent without asking the shaper.  Values of `spd_out / 8 * 1024` beyond an int are not wrapped.
- Splitter.SplitArgs: stops where the code would write outside argv; the source's caller passes an array of 50 and does not check.
- Template.SubstOpt: for templates with backslashes the text is stated as the loop produces it, byte tests included; what such a template is meant to become is not documented.
- AuthBuffers.Buffer.Bf2cf: requires the printed flags and their terminator to fit the buffer, which the source does not check.  Fewer than 20 characters is exact for the first call; what is written behind the buffer otherwise is not modelled.
- Flags.FlagsRoundTrip: ERANGE is 34, as on Linux, and long has 64 bits.
- Handshake.HandshakeAgreement: the variant that is built without the crypto library, and XORs the challenge with the password, is left out.
- KeepAlive.DeadPeerDropped: for links without statistics, with alarms that go off exactly when due.
- FullDuplex.LinkConserves: counters do not wrap and are not reset by SIGUSR1; the transport loses nothing and the device takes every packet.
- EndToEnd.TunnelIsIdentity: the printed flags must fit the 20-byte buffer of auth.c:128; the module states of a stack are drawn from one type, and the compressors are any modules that obey the law.
- EncryptedTunnel.TunnelOverStreams: for hosts without compression; random bytes and clock readings are functions of the state and the packet (in `Duplex` they are arbitrary in each step).
- Key derivation, the choice among the ciphers 1 to 16, and the quality of random bytes: random bytes, challenges and clock readings are arbitrary inputs.
- The echo and close frames of the link loop beyond their effect on idleness, signals as asynchronous events, and the client's reconnection.
- Locks (`lock.c`: whether the lock is granted is an input), the configuration parser and host list, device drivers, sockets, processes, the log and the process title.
