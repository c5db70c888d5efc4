/**
 * The command framing of the C++ client, `vlpp::client` (client.cpp).
 *
 * A client is a handle on a shared implementation object (`_impl`, a
 * `std::shared_ptr<client_impl>`): copies of a client share one command
 * buffer, and a client without an implementation throws
 * `uninitialized_error` from every public operation. SET_LED commands
 * collect in `cmd_buffer`; `flush` appends the STROBE opcode and hands the
 * whole buffer to the socket.
 *
 * The socket is not modelled: what is handed to `boost::asio::write` is
 * appended to the log `sent`, and whether that write fails is a parameter.
 * An exception is the Status it throws.
 */
module Client {
  import opened Words
  import RgbaColor

  type Color = RgbaColor.Color

  /** The opcodes of the vaporlight protocol. */
  const SET_LED: u8 := 0x01
  const AUTHENTICATE: u8 := 0x02
  const STROBE: u8 := 0xFF

  /** The length of an authentication token in bytes. */
  const TOKEN_SIZE := 16

  /** How an operation ends: normally, or with the exception it throws. */
  datatype Status = Success | UninitializedError | InvalidArgument | ConnectionFailure

  // ---------------------------------------------------------------------
  // The wire format

  /**
   * The seven bytes of one SET_LED command: the opcode, the LED id high
   * byte first (`led >> 8`, then `led & 0xff`), and red, green, blue and
   * alpha.
   */
  function SetLedBytes(led: u16, col: Color): (cmd: seq<u8>)
    ensures |cmd| == 7 && cmd[0] == SET_LED
  {
    [SET_LED, led / 0x100, led % 0x100, col.red, col.green, col.blue, col.alpha]
  }

  /** The commands for `ids`, one after another, all with colour `col`. */
  function SetLedsBytes(ids: seq<u16>, col: Color): (buf: seq<u8>)
    ensures |buf| == 7 * |ids|
  {
    if ids == [] then [] else SetLedsBytes(ids[..|ids| - 1], col) + SetLedBytes(ids[|ids| - 1], col)
  }

  /** The LED id and colour of one seven-byte SET_LED command, the id big-endian. */
  function DecodeCommand(cmd: seq<u8>): (u16, Color)
    requires |cmd| == 7
  {
    (cmd[1] as int * 0x100 + cmd[2] as int, RgbaColor.Color(cmd[3], cmd[4], cmd[5], cmd[6]))
  }

  /**
   * How a receiver reads a buffer of SET_LED commands: seven bytes at a
   * time; None when the buffer is not a whole number of SET_LED commands.
   */
  function DecodeCommands(buf: seq<u8>): (r: Option<seq<(u16, Color)>>)
    ensures r.Some? ==> |buf| == 7 * |r.value|
    decreases |buf|
  {
    if buf == [] then Some([])
    else if |buf| < 7 || buf[0] != SET_LED then None
    else
      match DecodeCommands(buf[7..])
      case None => None
      case Some(rest) => Some([DecodeCommand(buf[..7])] + rest)
  }

  /** One SET_LED command reads back as its LED id and colour: bytes 1 and 2 are the id, big-endian. */
  lemma DecodeSetLed(led: u16, col: Color)
    ensures var cmd := SetLedBytes(led, col); cmd[1] as int * 0x100 + cmd[2] as int == led as int
    ensures DecodeCommands(SetLedBytes(led, col)) == Some([(led, col)])
  {
    var cmd := SetLedBytes(led, col);
    assert cmd[..7] == cmd && cmd[7..] == [];
    assert [(led, col)] + [] == [(led, col)];
  }

  /** Two buffers of whole commands, one after the other, read as the commands of both in order. */
  lemma {:induction false} DecodeAppend(a: seq<u8>, b: seq<u8>)
    requires DecodeCommands(a).Some? && DecodeCommands(b).Some?
    ensures DecodeCommands(a + b) == Some(DecodeCommands(a).value + DecodeCommands(b).value)
    decreases |a|
  {
    if a == [] {
      assert a + b == b && DecodeCommands(a).value == [];
      assert [] + DecodeCommands(b).value == DecodeCommands(b).value;
    } else {
      var c := a + b;
      assert c[..7] == a[..7] && c[7..] == a[7..] + b;
      DecodeAppend(a[7..], b);
      var head := DecodeCommand(a[..7]);
      var restA, restB := DecodeCommands(a[7..]).value, DecodeCommands(b).value;
      assert DecodeCommands(c).value == [head] + (restA + restB);
      assert [head] + (restA + restB) == ([head] + restA) + restB;
    }
  }

  /** Each id of `ids`, in order, paired with the colour `col`. */
  function Addressed(ids: seq<u16>, col: Color): seq<(u16, Color)> {
    seq(|ids|, i requires 0 <= i < |ids| => (ids[i], col))
  }

  /** The commands for `ids` read back as each id, in order, with colour `col`. */
  lemma {:induction false} DecodeSetLeds(ids: seq<u16>, col: Color)
    ensures DecodeCommands(SetLedsBytes(ids, col)) == Some(Addressed(ids, col))
  {
    if ids == [] {
      assert Addressed(ids, col) == [];
    } else {
      var init, last := ids[..|ids| - 1], ids[|ids| - 1];
      DecodeSetLeds(init, col);
      DecodeSetLed(last, col);
      DecodeAppend(SetLedsBytes(init, col), SetLedBytes(last, col));
      assert Addressed(ids, col) == Addressed(init, col) + [(last, col)];
    }
  }

  /** Reading one flushed message: whole SET_LED commands, then the STROBE opcode. */
  function DecodeFrame(msg: seq<u8>): Option<seq<(u16, Color)>> {
    if msg != [] && msg[|msg| - 1] == STROBE then DecodeCommands(msg[..|msg| - 1]) else None
  }

  /** A flushed buffer reads back as the commands it held. */
  lemma FrameRoundTrip(buf: seq<u8>)
    ensures DecodeFrame(buf + [STROBE]) == DecodeCommands(buf)
  {
    assert (buf + [STROBE])[..|buf|] == buf;
  }

  /** The authentication message: the AUTHENTICATE opcode, then the token's bytes in order. */
  function AuthMessage(token: seq<u8>): (m: seq<u8>)
    ensures DecodeAuth(m) == if |token| == TOKEN_SIZE then Some(token) else None
  {
    [AUTHENTICATE] + token
  }

  /** How a receiver reads an authentication message: exactly the opcode and a token of TOKEN_SIZE bytes. */
  function DecodeAuth(msg: seq<u8>): Option<seq<u8>> {
    if |msg| == TOKEN_SIZE + 1 && msg[0] == AUTHENTICATE then Some(msg[1..]) else None
  }

  /** The message for a token of the right size reads back as that token, and is the only one that does. */
  lemma AuthRoundTrip(token: seq<u8>, msg: seq<u8>)
    ensures |token| == TOKEN_SIZE ==> DecodeAuth(AuthMessage(token)) == Some(token)
    ensures DecodeAuth(msg) == Some(token) ==> |token| == TOKEN_SIZE && msg == AuthMessage(token)
  {
    if DecodeAuth(msg) == Some(token) {
      assert msg == [msg[0]] + msg[1..];
    }
  }

  // ---------------------------------------------------------------------
  // client_impl

  /** The implementation object: the command buffer and the connection. */
  class ClientImpl {
    /** cmd_buffer */
    var cmdBuffer: seq<u8>
    /** Every message handed to the socket, in order. */
    var sent: seq<seq<u8>>

    /** A freshly connected implementation; the name lookup and connect are not modelled. */
    constructor()
      ensures cmdBuffer == [] && sent == []
    {
      cmdBuffer := [];
      sent := [];
    }

    /**
     * client_impl::authenticate: a token whose size is not TOKEN_SIZE throws
     * invalid_argument before anything is written; otherwise the
     * authentication message is written, and a failed write throws
     * connection_failure.
     */
    method Authenticate(token: seq<u8>, writeFails: bool) returns (s: Status)
      modifies this
      ensures |token| != TOKEN_SIZE ==> s == InvalidArgument && sent == old(sent)
      ensures |token| == TOKEN_SIZE ==> sent == old(sent) + [AuthMessage(token)]
      ensures |token| == TOKEN_SIZE ==> s == if writeFails then ConnectionFailure else Success
      ensures cmdBuffer == old(cmdBuffer)
    {
      if |token| != TOKEN_SIZE {
        return InvalidArgument;
      }
      var authData := new u8[TOKEN_SIZE + 1];
      authData[0] := AUTHENTICATE;
      for i := 0 to TOKEN_SIZE
        invariant authData[0] == AUTHENTICATE && authData[1..i + 1] == token[..i]
        modifies authData
      {
        authData[i + 1] := token[i];
        assert authData[1..i + 2] == authData[1..i + 1] + [token[i]];
      }
      assert authData[..] == [AUTHENTICATE] + token;
      sent := sent + [authData[..]];
      s := if writeFails then ConnectionFailure else Success;
    }

    /** client_impl::set_led: append one SET_LED command, byte by byte. */
    method SetLed(led: u16, col: Color)
      modifies this
      ensures cmdBuffer == old(cmdBuffer) + SetLedBytes(led, col) && sent == old(sent)
    {
      cmdBuffer := cmdBuffer + [SET_LED];
      cmdBuffer := cmdBuffer + [led / 0x100];
      cmdBuffer := cmdBuffer + [led % 0x100];
      cmdBuffer := cmdBuffer + [col.red];
      cmdBuffer := cmdBuffer + [col.green];
      cmdBuffer := cmdBuffer + [col.blue];
      cmdBuffer := cmdBuffer + [col.alpha];
    }

    /**
     * client_impl::flush: append STROBE, write the buffer, and clear it
     * before a failed write throws, so the buffer is empty either way.
     */
    method Flush(writeFails: bool) returns (s: Status)
      modifies this
      ensures sent == old(sent) + [old(cmdBuffer) + [STROBE]] && cmdBuffer == []
      ensures s == if writeFails then ConnectionFailure else Success
    {
      cmdBuffer := cmdBuffer + [STROBE];
      sent := sent + [cmdBuffer];
      cmdBuffer := [];
      s := if writeFails then ConnectionFailure else Success;
    }
  }

  // ---------------------------------------------------------------------
  // client

  /** The public handle; `impl` is null for a client without an implementation. */
  class VlppClient {
    const impl: ClientImpl?

    /** A handle on `impl`, shared with every other handle on it. */
    constructor(impl: ClientImpl?)
      ensures this.impl == impl
    {
      this.impl := impl;
    }

    /**
     * client(server, token, port): connect and authenticate. When the
     * authentication throws, no client is made.
     */
    static method Connect(token: seq<u8>, writeFails: bool) returns (c: VlppClient?, s: Status)
      ensures s == (if |token| != TOKEN_SIZE then InvalidArgument
                    else if writeFails then ConnectionFailure else Success)
      ensures s == Success <==> c != null
      ensures c != null ==> fresh(c) && fresh(c.impl) && c.impl != null
      ensures c != null ==> c.impl.cmdBuffer == [] && c.impl.sent == [AuthMessage(token)]
    {
      var impl := new ClientImpl();
      s := impl.Authenticate(token, writeFails);
      if s != Success {
        return null, s;
      }
      c := new VlppClient(impl);
    }

    /** client::authenticate */
    method Authenticate(token: seq<u8>, writeFails: bool) returns (s: Status)
      modifies impl
      ensures impl == null ==> s == UninitializedError
      ensures impl != null && |token| != TOKEN_SIZE ==> s == InvalidArgument && impl.sent == old(impl.sent)
      ensures impl != null && |token| == TOKEN_SIZE ==> impl.sent == old(impl.sent) + [AuthMessage(token)]
      ensures impl != null && |token| == TOKEN_SIZE ==> s == if writeFails then ConnectionFailure else Success
      ensures impl != null ==> impl.cmdBuffer == old(impl.cmdBuffer)
    {
      if impl == null {
        return UninitializedError;
      }
      s := impl.Authenticate(token, writeFails);
    }

    /** client::set_led */
    method SetLed(led: u16, col: Color) returns (s: Status)
      modifies impl
      ensures impl == null ==> s == UninitializedError
      ensures impl != null ==> s == Success && impl.sent == old(impl.sent)
      ensures impl != null ==> impl.cmdBuffer == old(impl.cmdBuffer) + SetLedBytes(led, col)
    {
      if impl == null {
        return UninitializedError;
      }
      impl.SetLed(led, col);
      s := Success;
    }

    /** client::set_leds: one SET_LED command per id, in the order given. */
    method SetLeds(ids: seq<u16>, col: Color) returns (s: Status)
      modifies impl
      ensures impl == null ==> s == UninitializedError
      ensures impl != null ==> s == Success && impl.sent == old(impl.sent)
      ensures impl != null ==> impl.cmdBuffer == old(impl.cmdBuffer) + SetLedsBytes(ids, col)
    {
      if impl == null {
        return UninitializedError;
      }
      for k := 0 to |ids|
        invariant impl.cmdBuffer == old(impl.cmdBuffer) + SetLedsBytes(ids[..k], col)
        invariant impl.sent == old(impl.sent)
      {
        var _ := SetLed(ids[k], col);
        assert ids[..k + 1][..k] == ids[..k];
      }
      assert ids[..|ids|] == ids;
      s := Success;
    }

    /** client::flush */
    method Flush(writeFails: bool) returns (s: Status)
      modifies impl
      ensures impl == null ==> s == UninitializedError
      ensures impl != null ==> impl.sent == old(impl.sent) + [old(impl.cmdBuffer) + [STROBE]] && impl.cmdBuffer == []
      ensures impl != null ==> s == if writeFails then ConnectionFailure else Success
    {
      if impl == null {
        return UninitializedError;
      }
      s := impl.Flush(writeFails);
    }

    /** client::access_buffer: the commands collected and not yet flushed. */
    method AccessBuffer() returns (s: Status, buf: seq<u8>)
      ensures s == (if impl == null then UninitializedError else Success)
      ensures impl != null ==> buf == impl.cmdBuffer
    {
      if impl == null {
        return UninitializedError, [];
      }
      return Success, impl.cmdBuffer;
    }
  }

  /**
   * What a receiver reads from a fresh buffer after set_leds and flush: the
   * ids in order, each with the colour given.
   */
  lemma SetLedsThenFlush(ids: seq<u16>, col: Color)
    ensures DecodeFrame(SetLedsBytes(ids, col) + [STROBE]) == Some(Addressed(ids, col))
  {
    FrameRoundTrip(SetLedsBytes(ids, col));
    DecodeSetLeds(ids, col);
  }
}
