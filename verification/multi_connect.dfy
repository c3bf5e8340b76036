/**
 The earlier host class in test/multi_connect.py, and the receive loop both
 host classes run. `process_rx` walks the receive buffer with an index
 `first`, searching for the next start byte and then for the next end byte;
 the method below follows that loop and is proved to agree with the
 suffix-based definition `MultiAdapter.ProcessRx`. Its routing takes the tag
 as the slice `msg[0:1]`, which is shown to route every message as the newer
 class does.

 The earlier class's `send_cmd`, `reset`, `connect` and `send_data` write the
 same bytes as `MultiAdapter.SendCmd`, `Reset`, `Connect` and `SendData`;
 its `reset` sends the command without the drain read, and it has no
 `send_data_to`.
 */
module MultiConnect {
  import opened PyBytes
  import opened Framing
  import opened MultiAdapter

  /** `msg[0:1]`: the first byte, or nothing for an empty message. */
  function Tag(msg: bytes): (r: bytes)
    ensures |r| <= 1
    ensures r == [] <==> msg == []
  {
    if |msg| < 1 then msg else msg[..1]
  }

  /** `on_status_msg`, comparing the slice tag with one-byte strings. */
  function OnStatusSlice(msg: bytes): Routed
  {
    var tag := Tag(msg);
    if tag == [STATUS_IDLE] then Emit(Idle(Strip(msg[1..])))
    else if tag == [STATUS_CONNECTING] then
      if |msg| < 2 then Raised else Emit(Connecting(msg[1] - DIGIT_ZERO))
    else if tag == [STATUS_CONNECTED] then Emit(Connected)
    else Silent
  }

  /** `process_msg` of the earlier class. */
  function ProcessMsgSlice(msg: bytes): Routed
  {
    var tag := Tag(msg);
    if tag == [TAG_STATUS] then OnStatusSlice(msg[1..])
    else if tag == [TAG_DEBUG] then Emit(Debug(msg[1..]))
    else if tag == [TAG_CENTRAL] then Emit(Central(msg[1..]))
    else if |msg| == 0 then Raised
    else Emit(Peer(msg[0] - DIGIT_ZERO, msg[1..]))
  }

  /** A slice tag equals a one-byte string exactly when the message starts with that byte. */
  lemma TagIs(msg: bytes, b: byte)
    ensures Tag(msg) == [b] <==> |msg| > 0 && msg[0] == b
  {
    if |msg| > 0 {
      assert Tag(msg)[0] == msg[0];
    }
  }

  /** Both classes route every message, the empty one included, to the same callback. */
  lemma SameRouting(msg: bytes)
    ensures ProcessMsgSlice(msg) == ProcessMsg(msg)
  {
    TagIs(msg, TAG_STATUS);
    TagIs(msg, TAG_DEBUG);
    TagIs(msg, TAG_CENTRAL);
    if |msg| > 0 && msg[0] == TAG_STATUS {
      var s := msg[1..];
      TagIs(s, STATUS_IDLE);
      TagIs(s, STATUS_CONNECTING);
      TagIs(s, STATUS_CONNECTED);
    }
  }

  /** Searching from `n + k` is searching the suffix from `k`, shifted by `n`. */
  lemma {:induction false} FindShift(buf: bytes, x: byte, n: nat, k: nat)
    requires n <= |buf|
    ensures Find(buf[n..], x, k) < 0 ==> Find(buf, x, n + k) == -1
    ensures Find(buf[n..], x, k) >= 0 ==> Find(buf, x, n + k) == n + Find(buf[n..], x, k)
    decreases |buf| - n - k
  {
    if n + k < |buf| {
      assert buf[n..][k] == buf[n + k];
      if buf[n + k] != x {
        FindShift(buf, x, n, k + 1);
      }
    }
  }

  /** The start and end bytes the loop finds from `first` are those the suffix at `first` starts with. */
  lemma NextEndFrom(buf: bytes, first: nat, begin: int, end: int)
    requires first <= |buf|
    requires begin == Find(buf, START_BYTE, first) && begin >= 0
    requires end == Find(buf, END_BYTE, begin + 1) && end >= 0
    ensures first <= begin < end
    ensures Find(buf[first..], START_BYTE, 0) == begin - first
    ensures NextEnd(buf[first..], START_BYTE, END_BYTE) == end - first
  {
    var rest := buf[first..];
    FindShift(buf, START_BYTE, first, 0);
    var b := Find(rest, START_BYTE, 0);
    assert b == begin - first;
    FindShift(buf, END_BYTE, first, b + 1);
    var e := Find(rest, END_BYTE, b + 1);
    assert e == end - first;
  }

  lemma SliceOfDrop(buf: bytes, n: nat, i: nat, j: nat)
    requires n + j <= |buf| && i <= j
    ensures buf[n..][i..j] == buf[n + i..n + j]
  {
  }

  lemma DropOfDrop(buf: bytes, n: nat, j: nat)
    requires n + j <= |buf|
    ensures buf[n..][j..] == buf[n + j..]
  {
  }

  /** The suffix's first frame, with the positions of its start and end bytes given by name. */
  lemma StepAt(rest: bytes, b: int, e: int)
    requires Find(rest, START_BYTE, 0) == b && NextEnd(rest, START_BYTE, END_BYTE) == e && e >= 0
    ensures 0 <= b < e < |rest|
    ensures Messages(rest, START_BYTE, END_BYTE) == [rest[b + 1..e]] + Messages(rest[e + 1..], START_BYTE, END_BYTE)
    ensures Tail(rest, START_BYTE, END_BYTE) == Tail(rest[e + 1..], START_BYTE, END_BYTE)
  {
    DeframeStep(rest, START_BYTE, END_BYTE);
  }

  /** A frame found from `first` by the loop is the next frame of the suffix at `first`. */
  lemma FrameFrom(buf: bytes, first: nat, begin: int, end: int)
    requires first <= |buf|
    requires begin == Find(buf, START_BYTE, first) && begin >= 0
    requires end == Find(buf, END_BYTE, begin + 1) && end >= 0
    ensures first <= begin < end < |buf|
    ensures Messages(buf[first..], START_BYTE, END_BYTE) ==
      [buf[begin + 1..end]] + Messages(buf[end + 1..], START_BYTE, END_BYTE)
    ensures Tail(buf[first..], START_BYTE, END_BYTE) == Tail(buf[end + 1..], START_BYTE, END_BYTE)
  {
    NextEndFrom(buf, first, begin, end);
    var rest := buf[first..];
    var b := begin - first;
    var e := end - first;
    StepAt(rest, b, e);
    SliceOfDrop(buf, first, b + 1, e);
    DropOfDrop(buf, first, e + 1);
    var msg := rest[b + 1..e];
    var after := rest[e + 1..];
    assert msg == buf[begin + 1..end];
    assert after == buf[end + 1..];
    assert Messages(rest, START_BYTE, END_BYTE) == [msg] + Messages(after, START_BYTE, END_BYTE);
    assert Tail(rest, START_BYTE, END_BYTE) == Tail(after, START_BYTE, END_BYTE);
  }

  /** When the loop finds no start byte, or no end byte after it, the suffix holds no frame. */
  lemma NoFrameFrom(buf: bytes, first: nat)
    requires first <= |buf|
    requires Find(buf, START_BYTE, first) < 0 ||
      Find(buf, END_BYTE, Find(buf, START_BYTE, first) + 1) < 0
    ensures Messages(buf[first..], START_BYTE, END_BYTE) == []
    ensures Tail(buf[first..], START_BYTE, END_BYTE) == buf[first..]
  {
    var rest := buf[first..];
    FindShift(buf, START_BYTE, first, 0);
    var begin := Find(buf, START_BYTE, first);
    if begin >= 0 {
      FindSpec(buf, START_BYTE, first);
      FindShift(buf, END_BYTE, first, begin - first + 1);
    }
    assert NextEnd(rest, START_BYTE, END_BYTE) < 0;
  }

  /** Routing one more message that does not raise appends its callback, if any. */
  lemma RouteSnoc(done: seq<bytes>, events: seq<Event>, msg: bytes)
    requires Route(done) == Dispatch(events, false) && !ProcessMsg(msg).Raised?
    ensures Route(done + [msg]) ==
      Dispatch(events + (if ProcessMsg(msg).Emit? then [ProcessMsg(msg).event] else []), false)
  {
    RouteAppend(done, [msg]);
    assert [msg][1..] == [];
    var h: seq<Event> := if ProcessMsg(msg).Emit? then [ProcessMsg(msg).event] else [];
    assert Route([msg]) == Dispatch(h + [], false);
    assert h + [] == h;
  }

  /** A message that raises stops routing whatever follows it. */
  lemma RouteStops(done: seq<bytes>, msg: bytes, more: seq<bytes>)
    requires !Route(done).raised && ProcessMsg(msg).Raised?
    ensures Route(done + ([msg] + more)) == Dispatch(Route(done).events, true)
  {
    RouteAppend(done, [msg] + more);
    assert ([msg] + more)[0] == msg;
  }

  /**
   The loop invariant: the frames of the whole buffer are those delivered so
   far followed by the frames of the suffix at `first`, and both keep the
   same tail.
   */
  ghost predicate Scanned(buf: bytes, first: nat, done: seq<bytes>)
  {
    && first <= |buf|
    && Messages(buf, START_BYTE, END_BYTE) == done + Messages(buf[first..], START_BYTE, END_BYTE)
    && Tail(buf, START_BYTE, END_BYTE) == Tail(buf[first..], START_BYTE, END_BYTE)
  }

  /** Delivering the frame the loop finds moves `first` past its end byte. */
  lemma ScannedStep(buf: bytes, first: nat, done: seq<bytes>, begin: int, end: int)
    requires Scanned(buf, first, done)
    requires begin == Find(buf, START_BYTE, first) && begin >= 0
    requires end == Find(buf, END_BYTE, begin + 1) && end >= 0
    ensures 0 <= begin < end < |buf|
    ensures Scanned(buf, end + 1, done + [buf[begin + 1..end]])
  {
    FrameFrom(buf, first, begin, end);
    var msg := buf[begin + 1..end];
    var more := Messages(buf[end + 1..], START_BYTE, END_BYTE);
    assert done + ([msg] + more) == (done + [msg]) + more;
  }

  /** When the loop stops, everything has been delivered and the suffix is the tail. */
  lemma ScannedEnd(buf: bytes, first: nat, done: seq<bytes>)
    requires Scanned(buf, first, done)
    requires Find(buf, START_BYTE, first) < 0 ||
      Find(buf, END_BYTE, Find(buf, START_BYTE, first) + 1) < 0
    ensures Deframe(buf, START_BYTE, END_BYTE) == Frames(done, buf[first..])
  {
    NoFrameFrom(buf, first);
    assert done + [] == done;
  }

  /** The start and end bytes the loop finds lie inside the buffer, in order. */
  lemma FoundBounds(buf: bytes, first: nat, begin: int, end: int)
    requires first <= |buf|
    requires begin == Find(buf, START_BYTE, first) && begin >= 0
    requires end == Find(buf, END_BYTE, begin + 1) && end >= 0
    ensures first <= begin < end < |buf|
  {
    FrameFrom(buf, first, begin, end);
  }

  /** Both loop invariants hold again after a delivered frame that does not raise. */
  lemma Advance(buf: bytes, first: nat, done: seq<bytes>, events: seq<Event>, begin: int, end: int,
                msg: bytes, called: seq<Event>, first': nat, done': seq<bytes>, events': seq<Event>)
    requires Scanned(buf, first, done) && Route(done) == Dispatch(events, false)
    requires begin == Find(buf, START_BYTE, first) && begin >= 0
    requires end == Find(buf, END_BYTE, begin + 1) && end >= 0
    requires end < |buf| && msg == buf[begin + 1..end] && !ProcessMsg(msg).Raised?
    requires called == if ProcessMsg(msg).Emit? then [ProcessMsg(msg).event] else []
    requires first' == end + 1 && done' == done + [msg] && events' == events + called
    ensures Scanned(buf, first', done')
    ensures Route(done') == Dispatch(events', false)
  {
    ScannedStep(buf, first, done, begin, end);
    RouteSnoc(done, events, msg);
  }

  /** `process_msg(msg)` of the earlier class, as a call the loop makes. */
  method RouteOne(msg: bytes) returns (routed: Routed)
    ensures routed == ProcessMsg(msg)
  {
    routed := ProcessMsgSlice(msg);
    SameRouting(msg);
  }

  /**
   `process_rx(rx_bytes)` as written: the index loop over the receive buffer.
   The callbacks are collected in `events`; an IndexError from routing ends
   the loop with the buffer left untrimmed.
   */
  method ProcessRx(rxBuff: bytes, rxBytes: bytes) returns (newBuff: bytes, events: seq<Event>, raised: bool)
    ensures RxResult(newBuff, events, raised) == MultiAdapter.ProcessRx(rxBuff, rxBytes)
  {
    var buf := rxBuff + rxBytes;
    var first: nat := 0;
    events := [];
    ghost var done: seq<bytes> := [];
    assert buf[0..] == buf;
    while true
      invariant Scanned(buf, first, done)
      invariant Route(done) == Dispatch(events, false)
      decreases |buf| - first
    {
      var begin := Find(buf, START_BYTE, first);
      if begin < 0 {
        break;
      }
      var end := Find(buf, END_BYTE, begin + 1);
      if end < 0 {
        break;
      }
      FoundBounds(buf, first, begin, end);
      var msg := buf[begin + 1..end];
      var routed := RouteOne(msg);
      if routed.Raised? {
        FrameFrom(buf, first, begin, end);
        RouteStops(done, msg, Messages(buf[end + 1..], START_BYTE, END_BYTE));
        newBuff, raised := buf, true;
        return;
      }
      ghost var (first0, done0, events0) := (first, done, events);
      var called: seq<Event> := if routed.Emit? then [routed.event] else [];
      events := events + called;
      done := done + [msg];
      first := end + 1;
      Advance(buf, first0, done0, events0, begin, end, msg, called, first, done, events);
    }
    ScannedEnd(buf, first, done);
    newBuff, raised := buf[first..], false;
  }
}
