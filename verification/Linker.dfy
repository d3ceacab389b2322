/** The data path of lfd_linker (linkfd.c) with its statistics. */
module Linker {
  import opened Bytes
  import opened ModStack

  /** The states of an end's modules, its statistics, and what it has handed to its device. */
  datatype End<S> = End(states: seq<S>, byteOut: nat, compOut: nat, byteIn: nat, compIn: nat, got: seq<bytes>)

  /** Data on its way to the network; nothing is written when nothing comes out of the stack. */
  function SendData<S>(cs: seq<Codec<S>>, e: End<S>, data: bytes): (r: (End<S>, Coded))
    requires |cs| == |e.states|
    ensures |r.0.states| == |e.states|
  {
    var (states, y) := Down(cs, e.states, Data(data));
    (e.(states := states, byteOut := e.byteOut + |data|, compOut := e.compOut + if y.Data? then |y.data| else 0), y)
  }

  /** A frame on its way to the device. */
  function ReceiveFrame<S>(cs: seq<Codec<S>>, e: End<S>, wire: bytes): (r: (End<S>, Coded))
    requires |cs| == |e.states|
    ensures |r.0.states| == |e.states|
  {
    var (states, z) := Up(cs, e.states, Data(wire));
    (e.(states := states, compIn := e.compIn + |wire|, byteIn := e.byteIn + (if z.Data? then |z.data| else 0),
        got := e.got + if z.Goes() then [z.data] else []), z)
  }

  class Link<S(!new)> {
    const list: LfdList<S>
    var byteIn: nat
    var byteOut: nat
    var compIn: nat
    var compOut: nat
    var written: seq<bytes>    // to the device

    ghost function Current(): End<S>
      reads this, list, list.mods
    {
      End(list.States(), byteOut, compOut, byteIn, compIn, written)
    }

    constructor (list: LfdList<S>)
      requires list.Valid()
      ensures this.list == list && Current() == End(list.States(), 0, 0, 0, 0, [])
    {
      this.list := list;
      byteIn, byteOut, compIn, compOut, written := 0, 0, 0, 0, [];
    }

    /** Data read from the device, or the one byte of a dummy packet (send_a_packet).  Failed breaks the loop;
        nothing is written to the network when nothing comes out of the stack. */
    method Send(data: bytes) returns (frame: Coded)
      requires list.Valid()
      modifies this`byteOut, this`compOut, list.mods`state
      ensures list.Valid()
      ensures (Current(), frame) == SendData(list.Codecs(), old(Current()), data)
    {
      hide Down;
      byteOut := byteOut + |data|;
      frame := list.RunDown(data);
      if frame.Data? {
        compOut := compOut + |frame.data|;
      }
    }

    /** A data frame from the network, the device taking what is written to it. */
    method Receive(frame: bytes) returns (data: Coded)
      requires list.Valid()
      modifies this`byteIn, this`compIn, this`written, list.mods`state
      ensures list.Valid()
      ensures (Current(), data) == ReceiveFrame(list.Codecs(), old(Current()), frame)
    {
      hide Up;
      compIn := compIn + |frame|;
      data := list.RunUp(frame);
      assert written + [] == written;
      if data.Data? {
        if data.data != [] {
          written := written + [data.data];
        }
        byteIn := byteIn + |data.data|;
      }
    }
  }
}
