/**
 `TestStream` of python/multi_echo_long.py: the sending half numbers each
 message and fills it with a random payload repeated twice; the receiving
 half checks brackets, fields, the repeated payload and the sequence number,
 and counts what it sees. The random payload is a parameter, constrained to
 what `random_bytes` can return.
 */
module TestStream {
  import opened Options
  import opened PyBytes

  /** `binary_data` and `max_size` as the script sets them. */
  const BINARY_DATA: bool := true
  const MAX_SIZE: nat := 2160

  const MSG_OPEN: byte := 0x28   // '('
  const MSG_CLOSE: byte := 0x29  // ')'

  /** `data_delimiter`: 0xFF for binary data, '#' for text. */
  function Delimiter(binary: bool): byte
  {
    if binary then 0xFF else 0x23
  }

  const DELIM: byte := Delimiter(BINARY_DATA)

  /** A byte `random_bytes` can return: `randrange(0, 255)`, or `randrange(ord('0'), ord('z') + 1)`. */
  predicate RandomByte(binary: bool, b: byte)
  {
    if binary then 0 <= b < 255 else 0x30 <= b <= 0x7A
  }

  /** In either mode the random payload never contains the delimiter. */
  lemma RandomNotDelimiter(binary: bool, data: bytes)
    requires forall k :: 0 <= k < |data| ==> RandomByte(binary, data[k])
    ensures Delimiter(binary) !in data
  {
    forall k | 0 <= k < |data| ensures data[k] != Delimiter(binary) {
      assert RandomByte(binary, data[k]);
    }
  }

  /** The state of one stream; the creation time is not modelled. */
  datatype Stream = Stream(
    isStarted: bool,
    lastTxSn: nat,
    lastRxSn: Option<int>,
    msgCnt: nat,
    byteCnt: nat,
    connCnt: nat,
    validCnt: nat,
    lostCnt: nat,
    dupCnt: nat,
    reorderCnt: nat,
    corruptCnt: nat)

  /** `TestStream(no_wait)`. */
  function NewStream(noWait: bool): (r: Stream)
    ensures r.isStarted == noWait && r.lastRxSn.None? && r.lastTxSn == 0
    ensures r.validCnt == 0 && r.msgCnt == 0
  {
    Stream(noWait, 0, None, 0, 0, 0, 0, 0, 0, 0, 0)
  }

  /** The message carrying `sn` and `data`: `(` sn delim data delim data `)`. */
  function Message(sn: nat, data: bytes): bytes
  {
    [MSG_OPEN] + Decimal(sn) + [DELIM] + data + [DELIM] + data + [MSG_CLOSE]
  }

  /** The frame limit `mk_msg` works to: `max_frame`, capped at `max_size`. */
  function FrameLimit(maxFrame: int): int
  {
    if maxFrame > MAX_SIZE then MAX_SIZE else maxFrame
  }

  /**
   `max_data_size`: room for the two copies once the number, two delimiters
   and two brackets are counted. Python's `//` floors; for the positive
   divisor 2 Dafny's `/` does the same.
   */
  function MaxDataSize(maxFrame: int, sn: nat): int
  {
    (FrameLimit(maxFrame) - |Decimal(sn)| - 4) / 2
  }

  /** A payload `random_bytes(randrange(1, max_data_size + 1))` can return. */
  predicate Drawn(maxFrame: int, sn: nat, data: bytes)
  {
    && 1 <= |data| <= MaxDataSize(maxFrame, sn)
    && forall k :: 0 <= k < |data| ==> RandomByte(BINARY_DATA, data[k])
  }

  /**
   The stream after `mk_msg` and the message it returns. With `random_size`
   set, an empty range for the payload length makes `randrange` raise
   ValueError: no message, but `last_tx_sn` was already incremented.
   */
  datatype Made = Made(stream: Stream, msg: Option<bytes>)

  /** `mk_msg(max_frame)` with `data` standing for the random payload. */
  function MkMsg(st: Stream, maxFrame: int, data: bytes): (r: Made)
    requires MaxDataSize(maxFrame, st.lastTxSn + 1) >= 1 ==> Drawn(maxFrame, st.lastTxSn + 1, data)
    ensures r.stream == st.(lastTxSn := st.lastTxSn + 1)
    ensures r.msg.Some? <==> MaxDataSize(maxFrame, st.lastTxSn + 1) >= 1
  {
    var sn := st.lastTxSn + 1;
    var next := st.(lastTxSn := sn);
    if MaxDataSize(maxFrame, sn) < 1 then Made(next, None)
    else Made(next, Some(Message(sn, data)))
  }

  /** What `mk_msg` sends is the numbered message, no longer than the frame limit or 2160. */
  lemma MkMsgShape(st: Stream, maxFrame: int, data: bytes)
    requires MaxDataSize(maxFrame, st.lastTxSn + 1) >= 1 && Drawn(maxFrame, st.lastTxSn + 1, data)
    ensures MkMsg(st, maxFrame, data).msg == Some(Message(st.lastTxSn + 1, data))
    ensures |Message(st.lastTxSn + 1, data)| <= maxFrame
    ensures |Message(st.lastTxSn + 1, data)| <= MAX_SIZE
  {
    var sn := st.lastTxSn + 1;
    assert |Message(sn, data)| == |Decimal(sn)| + 2 * |data| + 4;
  }

  /** The outcome of `msg_received`: the new counters and its return value. */
  datatype Received = Received(stream: Stream, valid: bool)

  /** `msg_received(msg)`. */
  function MsgReceived(st: Stream, msg: bytes): (r: Received)
    ensures r.stream.isStarted == st.isStarted && r.stream.lastTxSn == st.lastTxSn
    ensures r.stream.msgCnt == st.msgCnt && r.stream.validCnt == st.validCnt && r.stream.connCnt == st.connCnt
    ensures r.stream.corruptCnt == st.corruptCnt || r.stream.corruptCnt == st.corruptCnt + 1
    ensures r.valid ==> r.stream.corruptCnt == st.corruptCnt
    ensures r.stream.byteCnt == st.byteCnt || r.stream.byteCnt == st.byteCnt + |msg|
  {
    if |msg| == 0 || msg[0] != MSG_OPEN || msg[|msg| - 1] != MSG_CLOSE then
      Received(st.(corruptCnt := st.corruptCnt + 1), false)
    else
      var m := Split(msg[1..|msg| - 1], DELIM);
      var counted := st.(byteCnt := st.byteCnt + |msg|);
      if |m| != 3 then Received(counted.(corruptCnt := counted.corruptCnt + 1), false)
      else
        match ParseInt(m[0])
        case None => Received(counted.(corruptCnt := counted.corruptCnt + 1), false)
        case Some(sn) =>
          var valid := m[1] == m[2];
          var checked := if valid then counted else counted.(corruptCnt := counted.corruptCnt + 1);
          TrackSn(checked, sn, valid)
  }

  /** The sequence-number part of `msg_received`, after the payload check. */
  function TrackSn(st: Stream, sn: int, valid: bool): (r: Received)
    ensures r.stream.(lastRxSn := st.lastRxSn, lostCnt := st.lostCnt, dupCnt := st.dupCnt, reorderCnt := st.reorderCnt) == st
    ensures r.valid ==> valid
  {
    match st.lastRxSn
    case None => Received(st.(lastRxSn := Some(sn)), valid)
    case Some(last) =>
      if sn == last + 1 then Received(st.(lastRxSn := Some(sn)), valid)
      else if sn > last + 1 then Received(st.(lastRxSn := Some(sn), lostCnt := st.lostCnt + (sn - last - 1)), valid)
      else if sn == last then Received(st.(dupCnt := st.dupCnt + 1), false)
      else Received(st.(reorderCnt := st.reorderCnt + 1), false)
  }

  /** The rejections before the sequence check: each counts one corrupt message and returns False. */
  lemma MsgReceivedRejects(st: Stream, msg: bytes)
    ensures (|msg| == 0 || msg[0] != MSG_OPEN || msg[|msg| - 1] != MSG_CLOSE) ==>
      MsgReceived(st, msg) == Received(st.(corruptCnt := st.corruptCnt + 1), false)
    ensures |msg| >= 2 && msg[0] == MSG_OPEN && msg[|msg| - 1] == MSG_CLOSE ==>
      var m := Split(msg[1..|msg| - 1], DELIM);
      (|m| != 3 || ParseInt(m[0]).None?) ==>
        MsgReceived(st, msg) ==
          Received(st.(byteCnt := st.byteCnt + |msg|, corruptCnt := st.corruptCnt + 1), false)
  {
  }

  /**
   The sequence rules: a forward gap counts the lost numbers and is
   accepted; a repeat counts a duplicate and a step back a reorder, and both
   are refused with the last number kept.
   */
  lemma TrackSnCases(st: Stream, sn: int, last: int, valid: bool)
    requires st.lastRxSn == Some(last)
    ensures sn > last + 1 ==>
      TrackSn(st, sn, valid) == Received(st.(lastRxSn := Some(sn), lostCnt := st.lostCnt + (sn - last - 1)), valid)
    ensures sn == last ==> TrackSn(st, sn, valid) == Received(st.(dupCnt := st.dupCnt + 1), false)
    ensures sn < last ==> TrackSn(st, sn, valid) == Received(st.(reorderCnt := st.reorderCnt + 1), false)
    ensures sn <= last ==> TrackSn(st, sn, valid).stream.lastRxSn == Some(last)
  {
  }

  /** Unequal halves count as corrupt, yet the sequence number is still tracked. */
  lemma HalvesDiffer(st: Stream, sn: nat, x: bytes, y: bytes)
    requires DELIM !in x && DELIM !in y && x != y
    ensures var msg := [MSG_OPEN] + Decimal(sn) + [DELIM] + x + [DELIM] + y + [MSG_CLOSE];
      MsgReceived(st, msg) ==
        TrackSn(st.(byteCnt := st.byteCnt + |msg|, corruptCnt := st.corruptCnt + 1), sn, false)
  {
    var msg := [MSG_OPEN] + Decimal(sn) + [DELIM] + x + [DELIM] + y + [MSG_CLOSE];
    Fields(msg, sn, x, y);
    ReceiveFields(st, msg, sn, x, y);
  }

  /** The bracketed body of a numbered message splits into its number and its two halves. */
  lemma Fields(msg: bytes, sn: nat, x: bytes, y: bytes)
    requires DELIM !in x && DELIM !in y
    requires msg == [MSG_OPEN] + Decimal(sn) + [DELIM] + x + [DELIM] + y + [MSG_CLOSE]
    ensures |msg| >= 2 && msg[0] == MSG_OPEN && msg[|msg| - 1] == MSG_CLOSE
    ensures Split(msg[1..|msg| - 1], DELIM) == [Decimal(sn), x, y]
    ensures ParseInt(Decimal(sn)) == Some(sn)
  {
    var d := Decimal(sn);
    var body := d + [DELIM] + x + [DELIM] + y;
    assert msg == [MSG_OPEN] + body + [MSG_CLOSE];
    assert msg[1..|msg| - 1] == body;
    SnField(sn);
    SplitThree(d, x, y, DELIM);
  }

  /** `msg_received` on a bracketed message whose fields are a number and two halves. */
  lemma ReceiveFields(st: Stream, msg: bytes, sn: nat, x: bytes, y: bytes)
    requires |msg| >= 2 && msg[0] == MSG_OPEN && msg[|msg| - 1] == MSG_CLOSE
    requires Split(msg[1..|msg| - 1], DELIM) == [Decimal(sn), x, y]
    requires ParseInt(Decimal(sn)) == Some(sn)
    ensures var counted := st.(byteCnt := st.byteCnt + |msg|);
      MsgReceived(st, msg) ==
        TrackSn(if x == y then counted else counted.(corruptCnt := counted.corruptCnt + 1), sn, x == y)
  {
  }

  /** The number field: free of the delimiter and parsed back by `int()`. */
  lemma SnField(sn: nat)
    ensures DELIM !in Decimal(sn)
    ensures ParseInt(Decimal(sn)) == Some(sn)
  {
    DecimalAvoids(sn, DELIM);
    ParseIntOfDecimal(sn, [], []);
    assert [] + Decimal(sn) + [] == Decimal(sn);
  }

  /** A well-formed message carrying the next number is valid and moves the last number on. */
  lemma ReceiveNext(st: Stream, sn: nat, data: bytes)
    requires DELIM !in data
    requires st.lastRxSn == None || st.lastRxSn == Some(sn - 1)
    ensures MsgReceived(st, Message(sn, data)) ==
      Received(st.(lastRxSn := Some(sn), byteCnt := st.byteCnt + |Message(sn, data)|), true)
  {
    var msg := Message(sn, data);
    Fields(msg, sn, data, data);
    ReceiveFields(st, msg, sn, data, data);
  }

  /** `chunk_received(msg)`. */
  function ChunkReceived(st: Stream, msg: bytes): (r: Stream)
    ensures r.validCnt <= st.validCnt + 1 && r.msgCnt <= st.msgCnt + 1
    ensures r.validCnt - st.validCnt <= r.msgCnt - st.msgCnt
    ensures st.validCnt <= st.msgCnt ==> r.validCnt <= r.msgCnt
    ensures |msg| == 0 ==> r == st.(isStarted := true, lastRxSn := None, connCnt := st.connCnt + 1)
    ensures |msg| > 0 && !st.isStarted ==> r == st
  {
    if |msg| == 0 then st.(isStarted := true, lastRxSn := None, connCnt := st.connCnt + 1)
    else if !st.isStarted then st
    else
      var counted := st.(msgCnt := st.msgCnt + 1);
      var rcv := MsgReceived(counted, msg);
      if rcv.valid then rcv.stream.(validCnt := rcv.stream.validCnt + 1) else rcv.stream
  }

  /** Chunks handed over in order. */
  function ChunksReceived(st: Stream, msgs: seq<bytes>): (r: Stream)
    ensures st.validCnt <= st.msgCnt ==> r.validCnt <= r.msgCnt
    decreases |msgs|
  {
    if |msgs| == 0 then st else ChunksReceived(ChunkReceived(st, msgs[0]), msgs[1..])
  }

  /** The messages numbered `first`, `first + 1`, ... carrying the given payloads. */
  function Numbered(first: nat, datas: seq<bytes>): (r: seq<bytes>)
    ensures |r| == |datas|
    decreases |datas|
  {
    if |datas| == 0 then [] else [Message(first, datas[0])] + Numbered(first + 1, datas[1..])
  }

  /** The messages a sender produces from `st`, one `mk_msg` per payload. */
  function SendAll(st: Stream, maxFrame: int, datas: seq<bytes>): (r: seq<bytes>)
    requires forall i :: 0 <= i < |datas| ==> Drawn(maxFrame, st.lastTxSn + 1 + i, datas[i])
    decreases |datas|
  {
    if |datas| == 0 then []
    else
      assert Drawn(maxFrame, st.lastTxSn + 1 + 0, datas[0]);
      var made := MkMsg(st, maxFrame, datas[0]);
      assert forall i :: 0 <= i < |datas| - 1 ==> datas[1..][i] == datas[i + 1];
      [made.msg.value] + SendAll(made.stream, maxFrame, datas[1..])
  }

  /** A sender that can draw every payload sends them numbered on from its last number. */
  lemma {:induction false} SendAllNumbered(st: Stream, maxFrame: int, datas: seq<bytes>)
    requires forall i :: 0 <= i < |datas| ==> Drawn(maxFrame, st.lastTxSn + 1 + i, datas[i])
    ensures SendAll(st, maxFrame, datas) == Numbered(st.lastTxSn + 1, datas)
    decreases |datas|
  {
    if |datas| > 0 {
      var next := st.(lastTxSn := st.lastTxSn + 1);
      assert forall i :: 0 <= i < |datas| - 1 ==>
        Drawn(maxFrame, next.lastTxSn + 1 + i, datas[1..][i]) by {
        forall i | 0 <= i < |datas| - 1
          ensures Drawn(maxFrame, next.lastTxSn + 1 + i, datas[1..][i])
        {
          assert datas[1..][i] == datas[i + 1];
        }
      }
      SendAllNumbered(next, maxFrame, datas[1..]);
    }
  }

  /**
   A started receiver whose last number precedes `first` counts every
   numbered message valid, and no message lost, duplicated, reordered or
   corrupt.
   */
  lemma {:induction false} ReceiveNumbered(st: Stream, first: nat, datas: seq<bytes>)
    requires st.isStarted
    requires st.lastRxSn == None || st.lastRxSn == Some(first - 1)
    requires forall i :: 0 <= i < |datas| ==> DELIM !in datas[i]
    ensures var r := ChunksReceived(st, Numbered(first, datas));
      && r.validCnt == st.validCnt + |datas| && r.msgCnt == st.msgCnt + |datas|
      && r.lostCnt == st.lostCnt && r.dupCnt == st.dupCnt
      && r.reorderCnt == st.reorderCnt && r.corruptCnt == st.corruptCnt
    decreases |datas|
  {
    if |datas| > 0 {
      var msgs := Numbered(first, datas);
      var msg := Message(first, datas[0]);
      assert msgs[0] == msg && msgs[1..] == Numbered(first + 1, datas[1..]);
      var counted := st.(msgCnt := st.msgCnt + 1);
      ReceiveNext(counted, first, datas[0]);
      var st1 := ChunkReceived(st, msg);
      assert st1.lastRxSn == Some(first) && st1.isStarted;
      assert forall i :: 0 <= i < |datas| - 1 ==> datas[1..][i] == datas[i + 1];
      ReceiveNumbered(st1, first + 1, datas[1..]);
    }
  }

  /**
   The echo test end to end: a fresh sender's messages, fed in order to a
   fresh stream that has seen the stream-start chunk, are all counted valid.
   */
  lemma EchoAllValid(maxFrame: int, sender: Stream, datas: seq<bytes>)
    requires sender == NewStream(false)
    requires forall i :: 0 <= i < |datas| ==> Drawn(maxFrame, sender.lastTxSn + 1 + i, datas[i])
    ensures var r := ChunksReceived(ChunkReceived(NewStream(false), []), SendAll(sender, maxFrame, datas));
      && r.validCnt == |datas| && r.msgCnt == |datas|
      && r.lostCnt == 0 && r.dupCnt == 0 && r.reorderCnt == 0 && r.corruptCnt == 0
  {
    var started := ChunkReceived(NewStream(false), []);
    assert started == Stream(true, 0, None, 0, 0, 1, 0, 0, 0, 0, 0);
    var sent := SendAll(sender, maxFrame, datas);
    SendAllNumbered(sender, maxFrame, datas);
    DrawnAvoids(maxFrame, sender.lastTxSn + 1, datas);
    EchoFrom(started, sent, datas);
  }

  /** Payloads `random_bytes` draws never contain the delimiter. */
  lemma DrawnAvoids(maxFrame: int, first: nat, datas: seq<bytes>)
    requires forall i :: 0 <= i < |datas| ==> Drawn(maxFrame, first + i, datas[i])
    ensures forall i :: 0 <= i < |datas| ==> DELIM !in datas[i]
  {
    forall i | 0 <= i < |datas| ensures DELIM !in datas[i] {
      assert Drawn(maxFrame, first + i, datas[i]);
      RandomNotDelimiter(BINARY_DATA, datas[i]);
    }
  }

  /** Messages numbered from 1, into a stream that has just seen the start chunk, all count valid. */
  lemma EchoFrom(started: Stream, sent: seq<bytes>, datas: seq<bytes>)
    requires started == Stream(true, 0, None, 0, 0, 1, 0, 0, 0, 0, 0)
    requires sent == Numbered(1, datas)
    requires forall i :: 0 <= i < |datas| ==> DELIM !in datas[i]
    ensures var r := ChunksReceived(started, sent);
      && r.validCnt == |datas| && r.msgCnt == |datas|
      && r.lostCnt == 0 && r.dupCnt == 0 && r.reorderCnt == 0 && r.corruptCnt == 0
  {
    ReceiveNumbered(started, 1, datas);
  }
}
