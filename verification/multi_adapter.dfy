/**
 The host side of the BLE multi-adapter link (`MutliAdapter` in
 python/ble_multi_adapter.py): frames arriving on the serial line are cut out
 of the receive buffer, each frame is routed by its leading marker byte, and
 outbound commands and data are wrapped in the same 0x01 ... 0x00 framing.
 The no-op callbacks become a returned list of events; an IndexError raised
 while routing becomes the `raised` flag of the result.
 */
module MultiAdapter {
  import opened Options
  import opened PyBytes
  import opened Framing

  const START_BYTE: byte := 0x01
  const END_BYTE: byte := 0x00

  /** Leading marker bytes of a received frame. */
  const TAG_STATUS: byte := 0x3A   // ':'
  const TAG_DEBUG: byte := 0x2D    // '-'
  const TAG_CENTRAL: byte := 0x3C  // '<'

  /** Sub-tags of a status message. */
  const STATUS_IDLE: byte := 0x49        // 'I'
  const STATUS_CONNECTING: byte := 0x43  // 'C'
  const STATUS_CONNECTED: byte := 0x44   // 'D'

  /** Leading bytes of outbound frames and the commands built from them. */
  const TAG_CMD: byte := 0x23      // '#'
  const TAG_DATA: byte := 0x3E     // '>'
  const CMD_RESET: byte := 0x52    // 'R'
  const CMD_CONNECT: byte := 0x43  // 'C'

  /** What the callbacks `on_idle` ... `on_peer_msg` would be called with. */
  datatype Event =
    | Idle(version: bytes)
    | Connecting(idx: int)
    | Connected
    | Debug(msg: bytes)
    | Central(msg: bytes)
    | Peer(idx: int, msg: bytes)

  /** The outcome of routing one message: one callback, none, or an IndexError. */
  datatype Routed = Emit(event: Event) | Silent | Raised

  /** `on_status_msg(msg)`, `msg` being what follows the ':' marker. */
  function OnStatusMsg(msg: bytes): (r: Routed)
    ensures r.Raised? <==> msg == [STATUS_CONNECTING]
    ensures r.Emit? ==> r.event.Idle? || r.event.Connecting? || r.event.Connected?
  {
    if |msg| == 0 then Silent
    else if msg[0] == STATUS_IDLE then Emit(Idle(Strip(msg[1..])))
    else if msg[0] == STATUS_CONNECTING then
      if |msg| < 2 then Raised else Emit(Connecting(msg[1] - DIGIT_ZERO))
    else if msg[0] == STATUS_CONNECTED then Emit(Connected)
    else Silent
  }

  /** `process_msg(msg)`: route one frame body by its first byte. */
  function ProcessMsg(msg: bytes): (r: Routed)
    ensures r.Raised? <==> msg == [] || msg == [TAG_STATUS, STATUS_CONNECTING]
    ensures r.Emit? && r.event.Peer? ==> -48 <= r.event.idx < 208
  {
    if |msg| > 0 && msg[0] == TAG_STATUS then OnStatusMsg(msg[1..])
    else if |msg| > 0 && msg[0] == TAG_DEBUG then Emit(Debug(msg[1..]))
    else if |msg| > 0 && msg[0] == TAG_CENTRAL then Emit(Central(msg[1..]))
    else if |msg| == 0 then Raised
    else Emit(Peer(msg[0] - DIGIT_ZERO, msg[1..]))
  }

  // ---- Routing is a left inverse of the adapter's message layout ----

  /** Events some message routes to: a stripped version, and indices a single byte can carry. */
  predicate Routable(e: Event)
  {
    match e
    case Idle(v) => Strip(v) == v
    case Connecting(i) => -48 <= i < 208
    case Peer(i, _) => -48 <= i < 208 && i + DIGIT_ZERO !in {TAG_STATUS, TAG_DEBUG, TAG_CENTRAL}
    case _ => true
  }

  /** The shortest message that routes to `e`. */
  function MessageOf(e: Event): bytes
    requires Routable(e)
  {
    match e
    case Idle(v) => [TAG_STATUS, STATUS_IDLE] + v
    case Connecting(i) => [TAG_STATUS, STATUS_CONNECTING, i + DIGIT_ZERO]
    case Connected => [TAG_STATUS, STATUS_CONNECTED]
    case Debug(m) => [TAG_DEBUG] + m
    case Central(m) => [TAG_CENTRAL] + m
    case Peer(i, m) => [i + DIGIT_ZERO] + m
  }

  /** Every routable event is produced by its message. */
  lemma RouteMessageOf(e: Event)
    requires Routable(e)
    ensures ProcessMsg(MessageOf(e)) == Emit(e)
  {
    var msg := MessageOf(e);
    match e
    case Idle(v) => assert msg[1..][1..] == v;
    case Connecting(i) =>
    case Connected =>
    case Debug(m) => assert msg[1..] == m;
    case Central(m) => assert msg[1..] == m;
    case Peer(i, m) => assert msg[1..] == m;
  }

  /**
   Conversely, an emitted event is routable and comes from its message:
   exactly for debug, central and peer messages, up to surrounding
   whitespace for the idle version, and with ignored trailing bytes for the
   connecting and connected status.
   */
  lemma RouteSound(msg: bytes)
    requires ProcessMsg(msg).Emit?
    ensures Routable(ProcessMsg(msg).event)
    ensures ProcessMsg(msg).event.Debug? || ProcessMsg(msg).event.Central? || ProcessMsg(msg).event.Peer? ==>
      msg == MessageOf(ProcessMsg(msg).event)
    ensures ProcessMsg(msg).event.Idle? ==>
      msg[..2] == [TAG_STATUS, STATUS_IDLE] && ProcessMsg(msg).event.version == Strip(msg[2..])
    ensures ProcessMsg(msg).event.Connecting? || ProcessMsg(msg).event.Connected? ==>
      msg[..|MessageOf(ProcessMsg(msg).event)|] == MessageOf(ProcessMsg(msg).event)
  {
    var e := ProcessMsg(msg).event;
    if e.Idle? {
      SoundIdle(msg);
    } else if e.Debug? || e.Central? || e.Peer? {
      SoundTagged(msg);
    } else {
      SoundStatus(msg);
    }
  }

  lemma SoundIdle(msg: bytes)
    requires ProcessMsg(msg).Emit? && ProcessMsg(msg).event.Idle?
    ensures Routable(ProcessMsg(msg).event)
    ensures msg[..2] == [TAG_STATUS, STATUS_IDLE] && ProcessMsg(msg).event.version == Strip(msg[2..])
  {
    assert |msg| >= 2 && msg[0] == TAG_STATUS && msg[1] == STATUS_IDLE;
    var v := msg[2..];
    assert msg[1..][1..] == v;
    assert ProcessMsg(msg) == Emit(Idle(Strip(v)));
    StripIdempotent(v);
    assert msg[..2] == [msg[0], msg[1]];
  }

  lemma SoundTagged(msg: bytes)
    requires ProcessMsg(msg).Emit?
    requires ProcessMsg(msg).event.Debug? || ProcessMsg(msg).event.Central? || ProcessMsg(msg).event.Peer?
    ensures Routable(ProcessMsg(msg).event) && msg == MessageOf(ProcessMsg(msg).event)
  {
    assert msg == [msg[0]] + msg[1..];
  }

  lemma SoundStatus(msg: bytes)
    requires ProcessMsg(msg).Emit?
    requires ProcessMsg(msg).event.Connecting? || ProcessMsg(msg).event.Connected?
    ensures Routable(ProcessMsg(msg).event)
    ensures msg[..|MessageOf(ProcessMsg(msg).event)|] == MessageOf(ProcessMsg(msg).event)
  {
    if ProcessMsg(msg).event.Connecting? {
      assert msg[..3] == [msg[0], msg[1], msg[2]];
    } else {
      assert msg[..2] == [msg[0], msg[1]];
    }
  }

  /** Routing an empty-or-unknown status message produces no callback. */
  lemma RouteSilent(msg: bytes)
    ensures ProcessMsg(msg) == Silent <==>
      |msg| > 0 && msg[0] == TAG_STATUS &&
      (|msg| == 1 || msg[1] !in {STATUS_IDLE, STATUS_CONNECTING, STATUS_CONNECTED})
  {
  }

  /** A marker byte below '0' gives a negative peer index: '(' routes to peer -8. */
  lemma RouteNegativePeer(m: bytes)
    ensures ProcessMsg([0x28] + m) == Emit(Peer(-8, m))
  {
    assert ([0x28] + m)[1..] == m;
  }

  // ---- A sequence of messages ----

  /** The callbacks of one `process_rx` call, and whether an IndexError ended it. */
  datatype Dispatch = Dispatch(events: seq<Event>, raised: bool)

  /** Route messages in order; an IndexError stops the loop and propagates. */
  function Route(msgs: seq<bytes>): (r: Dispatch)
    ensures |r.events| <= |msgs|
    decreases |msgs|
  {
    if |msgs| == 0 then Dispatch([], false)
    else
      var head := ProcessMsg(msgs[0]);
      if head.Raised? then Dispatch([], true)
      else
        var rest := Route(msgs[1..]);
        Dispatch((if head.Emit? then [head.event] else []) + rest.events, rest.raised)
  }

  /** Routing raises exactly when some message is empty or a bare connecting status. */
  lemma {:induction false} RouteRaises(msgs: seq<bytes>)
    ensures Route(msgs).raised <==> exists i :: 0 <= i < |msgs| && ProcessMsg(msgs[i]).Raised?
    decreases |msgs|
  {
    if |msgs| > 0 {
      RouteRaises(msgs[1..]);
      if !ProcessMsg(msgs[0]).Raised? {
        assert forall i :: 1 <= i < |msgs| ==> msgs[i] == msgs[1..][i - 1];
        if exists i :: 0 <= i < |msgs| && ProcessMsg(msgs[i]).Raised? {
          var i :| 0 <= i < |msgs| && ProcessMsg(msgs[i]).Raised?;
          assert ProcessMsg(msgs[1..][i - 1]).Raised?;
        }
      }
    }
  }

  /** Routing two batches in turn is routing their concatenation, until a raise. */
  lemma {:induction false} RouteAppend(a: seq<bytes>, b: seq<bytes>)
    ensures Route(a + b) ==
      if Route(a).raised then Route(a) else Dispatch(Route(a).events + Route(b).events, Route(b).raised)
    decreases |a|
  {
    if |a| == 0 {
      assert a + b == b;
    } else {
      assert (a + b)[0] == a[0];
      assert (a + b)[1..] == a[1..] + b;
      RouteAppend(a[1..], b);
      var head := ProcessMsg(a[0]);
      if !head.Raised? {
        var h: seq<Event> := if head.Emit? then [head.event] else [];
        assert h + (Route(a[1..]).events + Route(b).events) == (h + Route(a[1..]).events) + Route(b).events;
      }
    }
  }

  // ---- process_rx ----

  /** `rx_buff` after a call, the callbacks made, and whether an IndexError escaped. */
  datatype RxResult = RxResult(rxBuff: bytes, events: seq<Event>, raised: bool)

  /**
   `process_rx(rx_bytes)` with receive buffer `rxBuff`. When routing raises,
   the statement trimming `rx_buff` is never reached: the buffer keeps all
   bytes, including the frames already routed.
   */
  function ProcessRx(rxBuff: bytes, rxBytes: bytes): (r: RxResult)
  {
    var buf := rxBuff + rxBytes;
    var frames := Deframe(buf, START_BYTE, END_BYTE);
    var d := Route(frames.messages);
    RxResult(if d.raised then buf else frames.tail, d.events, d.raised)
  }

  /** Without a raise the kept buffer is a suffix of the input and holds no complete frame. */
  lemma ProcessRxTail(rxBuff: bytes, rxBytes: bytes)
    ensures var r := ProcessRx(rxBuff, rxBytes);
      !r.raised ==>
        && r.rxBuff == (rxBuff + rxBytes)[|rxBuff + rxBytes| - |r.rxBuff|..]
        && Unterminated(r.rxBuff, START_BYTE, END_BYTE)
  {
    TailIsSuffix(rxBuff + rxBytes, START_BYTE, END_BYTE);
    DeframeSound(rxBuff + rxBytes, START_BYTE, END_BYTE);
  }

  /** A frame `01 p 00` into an empty buffer routes exactly `p` and leaves the buffer empty. */
  lemma ProcessRxSingle(p: bytes)
    requires END_BYTE !in p && !ProcessMsg(p).Raised?
    ensures ProcessRx([], [START_BYTE] + p + [END_BYTE]) ==
      RxResult([], if ProcessMsg(p).Emit? then [ProcessMsg(p).event] else [], false)
  {
    var frame := [START_BYTE] + p + [END_BYTE];
    assert [] + frame == [] + [START_BYTE] + p + [END_BYTE];
    DeframeSingle([], p, START_BYTE, END_BYTE);
    assert [p][1..] == [];
    var h: seq<Event> := if ProcessMsg(p).Emit? then [ProcessMsg(p).event] else [];
    assert Route([p]) == Dispatch(h + [], false);
    assert h + [] == h;
  }

  /** An inner start byte belongs to the body: `01 'a' 01 'b' 00` delivers `'a' 01 'b'`. */
  lemma InnerStartKept()
    ensures Deframe([START_BYTE, 0x61, START_BYTE, 0x62, END_BYTE], START_BYTE, END_BYTE) ==
      Frames([[0x61, START_BYTE, 0x62]], [])
  {
    DeframeSingle([], [0x61, START_BYTE, 0x62], START_BYTE, END_BYTE);
    assert [] + [START_BYTE] + [0x61, START_BYTE, 0x62] + [END_BYTE] == [START_BYTE, 0x61, START_BYTE, 0x62, END_BYTE];
  }

  /**
   Two reads routed by two calls give the events of one call on both reads.
   A raise in the first call ends the one-call trace at the same point; a
   raise in the second leaves each buffer holding everything it scanned.
   */
  lemma ProcessRxTwoCalls(b0: bytes, x: bytes, y: bytes)
    ensures ProcessRx(b0, x).raised ==>
      ProcessRx(b0, x + y).events == ProcessRx(b0, x).events && ProcessRx(b0, x + y).raised
    ensures !ProcessRx(b0, x).raised ==>
      && ProcessRx(b0, x + y).events == ProcessRx(b0, x).events + ProcessRx(ProcessRx(b0, x).rxBuff, y).events
      && ProcessRx(b0, x + y).raised == ProcessRx(ProcessRx(b0, x).rxBuff, y).raised
      && (!ProcessRx(b0, x + y).raised ==> ProcessRx(b0, x + y).rxBuff == ProcessRx(ProcessRx(b0, x).rxBuff, y).rxBuff)
  {
    var bx := b0 + x;
    assert b0 + (x + y) == bx + y;
    DeframeTwoCalls(bx, y, START_BYTE, END_BYTE);
    var f1 := Deframe(bx, START_BYTE, END_BYTE);
    var f2 := Deframe(f1.tail + y, START_BYTE, END_BYTE);
    var all := Deframe(bx + y, START_BYTE, END_BYTE);
    assert all.messages == f1.messages + f2.messages;
    RouteAppend(f1.messages, f2.messages);
    var r1 := ProcessRx(b0, x);
    if !r1.raised {
      assert r1.rxBuff == f1.tail;
      assert r1.rxBuff + y == f1.tail + y;
      var r2 := ProcessRx(r1.rxBuff, y);
      assert r2.events == Route(f2.messages).events;
      assert r2.raised == Route(f2.messages).raised;
    }
  }

  /**
   After a raise, the next call scans the whole buffer again: it replays the
   events already delivered and raises at the same frame, whatever arrives.
   */
  lemma ProcessRxReplay(b0: bytes, x: bytes, y: bytes)
    requires ProcessRx(b0, x).raised
    ensures ProcessRx(ProcessRx(b0, x).rxBuff, y).raised
    ensures ProcessRx(ProcessRx(b0, x).rxBuff, y).events == ProcessRx(b0, x).events
  {
    var bx := b0 + x;
    DeframeTwoCalls(bx, y, START_BYTE, END_BYTE);
    var f1 := Deframe(bx, START_BYTE, END_BYTE);
    var f2 := Deframe(f1.tail + y, START_BYTE, END_BYTE);
    RouteAppend(f1.messages, f2.messages);
  }

  // ---- Outbound frames ----

  /** `send_cmd(cmd)`: 01 '#' cmd 00, without escaping. */
  function SendCmd(cmd: bytes): (r: bytes)
    ensures |r| == |cmd| + 3
  {
    [START_BYTE, TAG_CMD] + cmd + [END_BYTE]
  }

  /** `reset()`: the command 'R'. */
  function Reset(): bytes
  {
    SendCmd([CMD_RESET])
  }

  /** The command `connect(peers)` sends: 'C' and the peer addresses joined by spaces. */
  function ConnectCmd(peers: seq<bytes>): bytes
  {
    [CMD_CONNECT] + Join(peers, SPACE)
  }

  /** `connect(peers)`. */
  function Connect(peers: seq<bytes>): bytes
  {
    SendCmd(ConnectCmd(peers))
  }

  /** `send_data(data)`: 01 '>' data 00. */
  function SendData(data: bytes): (r: bytes)
    ensures |r| == |data| + 3
  {
    [START_BYTE, TAG_DATA] + data + [END_BYTE]
  }

  /**
   `send_data_to(idx, data)`: 01 ('0' + idx) data 00. `to_bytes(1, 'big')`
   raises OverflowError outside 0..255, which gives None.
   */
  function SendDataTo(idx: int, data: bytes): (r: Option<bytes>)
    ensures r.Some? <==> -48 <= idx < 208
    ensures r.Some? ==> |r.value| == |data| + 3
  {
    var marker := DIGIT_ZERO + idx;
    if 0 <= marker < 256 then Some([START_BYTE, marker as byte] + data + [END_BYTE]) else None
  }

  /** A command without a 00 byte reaches the adapter as one frame, body '#' cmd. */
  lemma SendCmdFrame(cmd: bytes)
    requires END_BYTE !in cmd
    ensures Deframe(SendCmd(cmd), START_BYTE, END_BYTE) == Frames([[TAG_CMD] + cmd], [])
  {
    assert SendCmd(cmd) == [] + [START_BYTE] + ([TAG_CMD] + cmd) + [END_BYTE];
    DeframeSingle([], [TAG_CMD] + cmd, START_BYTE, END_BYTE);
  }

  /** Data without a 00 byte reaches the adapter as one frame, body '>' data. */
  lemma SendDataFrame(data: bytes)
    requires END_BYTE !in data
    ensures Deframe(SendData(data), START_BYTE, END_BYTE) == Frames([[TAG_DATA] + data], [])
  {
    assert SendData(data) == [] + [START_BYTE] + ([TAG_DATA] + data) + [END_BYTE];
    DeframeSingle([], [TAG_DATA] + data, START_BYTE, END_BYTE);
  }

  /**
   The body of a `send_data_to` frame is the layout the host itself routes
   to a peer: routing it gives back `Peer(idx, data)`.
   */
  lemma SendDataToFrame(idx: int, data: bytes)
    requires SendDataTo(idx, data).Some? && END_BYTE !in data
    requires idx + DIGIT_ZERO !in {END_BYTE, TAG_STATUS, TAG_DEBUG, TAG_CENTRAL}
    ensures Deframe(SendDataTo(idx, data).value, START_BYTE, END_BYTE) ==
      Frames([MessageOf(Peer(idx, data))], [])
    ensures ProcessMsg(MessageOf(Peer(idx, data))) == Emit(Peer(idx, data))
  {
    var body := MessageOf(Peer(idx, data));
    assert SendDataTo(idx, data).value == [] + [START_BYTE] + body + [END_BYTE];
    DeframeSingle([], body, START_BYTE, END_BYTE);
    RouteMessageOf(Peer(idx, data));
  }

  /** The peer list is recovered by splitting the connect command on spaces. */
  lemma ConnectPeers(peers: seq<bytes>)
    requires |peers| >= 1
    requires forall i :: 0 <= i < |peers| ==> SPACE !in peers[i]
    ensures ConnectCmd(peers)[0] == CMD_CONNECT
    ensures Split(ConnectCmd(peers)[1..], SPACE) == peers
  {
    assert ConnectCmd(peers)[1..] == Join(peers, SPACE);
    SplitJoin(peers, SPACE);
  }

  /** `reset()` sends exactly 01 '#' 'R' 00. */
  lemma ResetBytes()
    ensures Reset() == [0x01, 0x23, 0x52, 0x00]
  {
  }
}
