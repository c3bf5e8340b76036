/**
 The stream validator of test/receive.py. Serial bytes are cut into
 0x01 ... 0x00 frames; a frame whose last byte before the 0x00 is 0x01 marks
 the start of a stream, any other frame is a chunk of the stream once it has
 started. Chunks are joined and cut again into `(` ... `)` messages of the
 form `sn#data#data`, whose sequence numbers are tracked. The script's
 globals are one `Receiver` record; each function returns the next record.
 */
module Receive {
  import opened Options
  import opened PyBytes
  import opened Framing

  const START_BYTE: byte := 0x01
  const END_BYTE: byte := 0x00
  const MSG_OPEN: byte := 0x28   // '('
  const MSG_CLOSE: byte := 0x29  // ')'
  const FIELD_SEP: byte := 0x23  // '#'

  /** The counters and the last sequence number (`None` before the first good message). */
  datatype Stats = Stats(
    totalBytes: nat,
    chunkTotal: nat,
    msgTotal: nat,
    msgBad: nat,
    lastSn: Option<int>,
    badSn: nat,
    missedSn: nat,
    maxSnGap: nat)

  datatype Receiver = Receiver(rxBuff: bytes, msgBuff: bytes, waitStart: bool, stats: Stats)

  /** The state the script starts in. */
  const Initial := Receiver([], [], true, Stats(0, 0, 0, 0, None, 0, 0, 0))

  /**
   What holds of the counters at every point: bad messages are among all
   messages, the largest gap is part of the missed count, and nothing is
   counted against sequence numbers before the first one.
   */
  predicate Valid(s: Stats)
  {
    && s.msgBad <= s.msgTotal
    && s.maxSnGap <= s.missedSn
    && (s.lastSn.None? ==> s.badSn == 0 && s.missedSn == 0)
  }

  /** No counter decreases and a recorded sequence number stays recorded. */
  predicate Grows(a: Stats, b: Stats)
  {
    && a.totalBytes <= b.totalBytes
    && a.chunkTotal <= b.chunkTotal
    && a.msgTotal <= b.msgTotal
    && a.msgBad <= b.msgBad
    && a.badSn <= b.badSn
    && a.missedSn <= b.missedSn
    && a.maxSnGap <= b.maxSnGap
    && (a.lastSn.Some? ==> b.lastSn.Some?)
  }

  lemma GrowsTrans(a: Stats, b: Stats, c: Stats)
    requires Grows(a, b) && Grows(b, c)
    ensures Grows(a, c)
  {
  }

  /** `check_sn(sn)`. */
  function CheckSn(s: Stats, sn: int): (r: Stats)
    ensures r.lastSn == Some(sn)
    ensures Grows(s, r)
    ensures Valid(s) ==> Valid(r)
    ensures r.(lastSn := s.lastSn, badSn := s.badSn, missedSn := s.missedSn, maxSnGap := s.maxSnGap) == s
  {
    match s.lastSn
    case None => s.(lastSn := Some(sn))
    case Some(last) =>
      if sn <= last then s.(lastSn := Some(sn), badSn := s.badSn + 1)
      else if sn != last + 1 then
        var gap := sn - last - 1;
        s.(lastSn := Some(sn), missedSn := s.missedSn + gap,
           maxSnGap := if gap > s.maxSnGap then gap else s.maxSnGap)
      else s.(lastSn := Some(sn))
  }

  /** The three cases of a sequence number after the first. */
  lemma CheckSnCases(s: Stats, sn: int, last: int)
    requires s.lastSn == Some(last)
    ensures sn <= last ==> CheckSn(s, sn) == s.(lastSn := Some(sn), badSn := s.badSn + 1)
    ensures sn == last + 1 ==> CheckSn(s, sn) == s.(lastSn := Some(sn))
    ensures sn > last + 1 ==>
      && CheckSn(s, sn).missedSn == s.missedSn + (sn - last - 1)
      && CheckSn(s, sn).maxSnGap == (if sn - last - 1 > s.maxSnGap then sn - last - 1 else s.maxSnGap)
      && CheckSn(s, sn).badSn == s.badSn
  {
  }

  /** Checking a list of sequence numbers in order. */
  function CheckAll(s: Stats, sns: seq<int>): (r: Stats)
    decreases |sns|
  {
    if |sns| == 0 then s else CheckAll(CheckSn(s, sns[0]), sns[1..])
  }

  predicate Increasing(sns: seq<int>)
  {
    forall i :: 0 < i < |sns| ==> sns[i - 1] < sns[i]
  }

  /**
   A strictly increasing run after `last` adds no bad number, and misses
   exactly the numbers it skips: the span to its last number less its length.
   */
  lemma {:induction false} CheckIncreasing(s: Stats, last: int, sns: seq<int>)
    requires s.lastSn == Some(last) && |sns| > 0 && last < sns[0] && Increasing(sns)
    ensures CheckAll(s, sns).badSn == s.badSn
    ensures CheckAll(s, sns).missedSn == s.missedSn + (sns[|sns| - 1] - last) - |sns|
    ensures CheckAll(s, sns).lastSn == Some(sns[|sns| - 1])
    decreases |sns|
  {
    var s1 := CheckSn(s, sns[0]);
    CheckSnCases(s, sns[0], last);
    if |sns| > 1 {
      var rest := sns[1..];
      assert rest[0] == sns[1];
      assert Increasing(rest) by {
        forall i | 0 < i < |rest| ensures rest[i - 1] < rest[i] {
          assert rest[i - 1] == sns[i] && rest[i] == sns[i + 1];
        }
      }
      CheckIncreasing(s1, sns[0], rest);
      assert rest[|rest| - 1] == sns[|sns| - 1];
    }
  }

  /** The outcome of `process_msg`: the new counters and whether the message was good. */
  datatype Checked = Checked(stats: Stats, good: bool)

  /** `process_msg(msg)`, `msg` being the bytes between `(` and `)`. */
  function ProcessMsg(s: Stats, msg: bytes): (r: Checked)
    ensures r.stats.msgTotal == s.msgTotal + 1
    ensures r.good <==> r.stats.msgBad == s.msgBad
    ensures !r.good ==> r.stats == s.(msgTotal := s.msgTotal + 1, msgBad := s.msgBad + 1)
    ensures r.good <==>
      var f := Split(msg, FIELD_SEP);
      |f| == 3 && f[1] == f[2] && ParseInt(f[0]).Some?
    ensures r.good ==>
      r.stats == CheckSn(s.(msgTotal := s.msgTotal + 1), ParseInt(Split(msg, FIELD_SEP)[0]).value)
    ensures Grows(s, r.stats)
    ensures Valid(s) ==> Valid(r.stats)
  {
    var counted := s.(msgTotal := s.msgTotal + 1);
    var f := Split(msg, FIELD_SEP);
    if |f| != 3 || f[1] != f[2] then Checked(counted.(msgBad := counted.msgBad + 1), false)
    else
      match ParseInt(f[0])
      case None => Checked(counted.(msgBad := counted.msgBad + 1), false)
      case Some(sn) => Checked(CheckSn(counted, sn), true)
  }

  /** The message `sn#data#data` is good and checks `sn`, when `data` holds no `#`. */
  lemma ProcessMsgGood(s: Stats, sn: nat, data: bytes)
    requires FIELD_SEP !in data
    ensures ProcessMsg(s, Decimal(sn) + [FIELD_SEP] + data + [FIELD_SEP] + data) ==
      Checked(CheckSn(s.(msgTotal := s.msgTotal + 1), sn), true)
  {
    var d := Decimal(sn);
    DecimalFieldValue(sn);
    SplitThree(d, data, data, FIELD_SEP);
  }

  /** A decimal holds no separator and parses back to its value. */
  lemma DecimalFieldValue(sn: nat)
    ensures FIELD_SEP !in Decimal(sn)
    ensures ParseInt(Decimal(sn)) == Some(sn)
  {
    DecimalAvoids(sn, FIELD_SEP);
    ParseIntOfDecimal(sn, [], []);
    assert [] + Decimal(sn) + [] == Decimal(sn);
  }

  /** Two different halves make the message bad, whatever its sequence number. */
  lemma ProcessMsgHalvesDiffer(s: Stats, head: bytes, x: bytes, y: bytes)
    requires FIELD_SEP !in head && FIELD_SEP !in x && FIELD_SEP !in y && x != y
    ensures !ProcessMsg(s, head + [FIELD_SEP] + x + [FIELD_SEP] + y).good
  {
    SplitThree(head, x, y, FIELD_SEP);
  }

  /** Messages processed in order. */
  function ProcessMsgs(s: Stats, msgs: seq<bytes>): (r: Stats)
    ensures r.msgTotal == s.msgTotal + |msgs|
    ensures r.totalBytes == s.totalBytes && r.chunkTotal == s.chunkTotal
    ensures Grows(s, r)
    ensures Valid(s) ==> Valid(r)
    decreases |msgs|
  {
    if |msgs| == 0 then s else ProcessMsgs(ProcessMsg(s, msgs[0]).stats, msgs[1..])
  }

  /**
   `process_chunk(chunk)`: every `(` ... `)` message of the joined buffer is
   counted, and the buffer keeps only the unterminated tail.
   */
  function ProcessChunk(st: Receiver, chunk: bytes): (r: Receiver)
    ensures r.rxBuff == st.rxBuff && r.waitStart == st.waitStart
    ensures r.stats.chunkTotal == st.stats.chunkTotal + 1
    ensures r.msgBuff == Tail(st.msgBuff + chunk, MSG_OPEN, MSG_CLOSE)
    ensures Unterminated(r.msgBuff, MSG_OPEN, MSG_CLOSE)
    ensures r.stats.msgTotal == st.stats.msgTotal + |Messages(st.msgBuff + chunk, MSG_OPEN, MSG_CLOSE)|
    ensures Grows(st.stats, r.stats)
    ensures Valid(st.stats) ==> Valid(r.stats)
  {
    var buf := st.msgBuff + chunk;
    DeframeSound(buf, MSG_OPEN, MSG_CLOSE);
    var f := Deframe(buf, MSG_OPEN, MSG_CLOSE);
    var counted := st.stats.(chunkTotal := st.stats.chunkTotal + 1);
    st.(msgBuff := f.tail, stats := ProcessMsgs(counted, f.messages))
  }

  /** `on_stream_start()`. */
  function OnStreamStart(st: Receiver): (r: Receiver)
    ensures r.msgBuff == [] && !r.waitStart
    ensures r.stats == st.stats && r.rxBuff == st.rxBuff
  {
    st.(msgBuff := [], waitStart := false)
  }

  /**
   `rx_buff[end-1:end] == start_byte` for the frame `rx_buff[begin+1:end]`:
   the byte before the end byte is the frame's own last byte, or, for an
   empty frame, its start byte.
   */
  predicate IsStreamStart(frame: bytes)
  {
    |frame| == 0 || frame[|frame| - 1] == START_BYTE
  }

  /** The body of the loop in `process_buffer` for one frame. */
  function OnFrame(st: Receiver, frame: bytes): (r: Receiver)
    ensures r.rxBuff == st.rxBuff
    ensures Grows(st.stats, r.stats)
    ensures Valid(st.stats) ==> Valid(r.stats)
  {
    if IsStreamStart(frame) then OnStreamStart(st)
    else if !st.waitStart then ProcessChunk(st, frame)
    else st
  }

  /** The loop in `process_buffer` over all frames in order. */
  function OnFrames(st: Receiver, frames: seq<bytes>): (r: Receiver)
    ensures r.rxBuff == st.rxBuff && r.stats.totalBytes == st.stats.totalBytes
    ensures Grows(st.stats, r.stats)
    ensures Valid(st.stats) ==> Valid(r.stats)
    decreases |frames|
  {
    if |frames| == 0 then st
    else
      var st1 := OnFrame(st, frames[0]);
      var r := OnFrames(st1, frames[1..]);
      GrowsTrans(st.stats, st1.stats, r.stats);
      r
  }

  /** `process_buffer(rx_bytes)`. */
  function ProcessBuffer(st: Receiver, rxBytes: bytes): (r: Receiver)
    ensures r.stats.totalBytes == st.stats.totalBytes + |rxBytes|
    ensures Valid(st.stats) ==> Valid(r.stats)
  {
    var buf := st.rxBuff + rxBytes;
    var f := Deframe(buf, START_BYTE, END_BYTE);
    var counted := st.(rxBuff := buf, stats := st.stats.(totalBytes := st.stats.totalBytes + |rxBytes|));
    OnFrames(counted, f.messages).(rxBuff := f.tail)
  }

  /** Counters never decrease across `process_buffer`, and the unterminated tail is kept. */
  lemma ProcessBufferGrows(st: Receiver, rxBytes: bytes)
    ensures Grows(st.stats, ProcessBuffer(st, rxBytes).stats)
    ensures ProcessBuffer(st, rxBytes).rxBuff == Tail(st.rxBuff + rxBytes, START_BYTE, END_BYTE)
    ensures Unterminated(ProcessBuffer(st, rxBytes).rxBuff, START_BYTE, END_BYTE)
  {
    var buf := st.rxBuff + rxBytes;
    DeframeSound(buf, START_BYTE, END_BYTE);
    var counted := st.stats.(totalBytes := st.stats.totalBytes + |rxBytes|);
    var r := ProcessBuffer(st, rxBytes);
    GrowsTrans(st.stats, counted, r.stats);
  }

  /** Every state reached from the initial one by `process_buffer` calls keeps the invariant. */
  lemma {:induction false} ReachableValid(inputs: seq<bytes>)
    ensures Valid(Run(inputs).stats)
    decreases |inputs|
  {
    if |inputs| > 0 {
      ReachableValid(inputs[..|inputs| - 1]);
    }
  }

  /** The state after feeding the reads in order. */
  function Run(inputs: seq<bytes>): Receiver
    decreases |inputs|
  {
    if |inputs| == 0 then Initial else ProcessBuffer(Run(inputs[..|inputs| - 1]), inputs[|inputs| - 1])
  }

  /** Frames handled in two batches are handled as one list. */
  lemma {:induction false} OnFramesAppend(st: Receiver, a: seq<bytes>, b: seq<bytes>)
    ensures OnFrames(st, a + b) == OnFrames(OnFrames(st, a), b)
    decreases |a|
  {
    if |a| == 0 {
      assert a + b == b;
    } else {
      assert (a + b)[0] == a[0];
      assert (a + b)[1..] == a[1..] + b;
      OnFramesAppend(OnFrame(st, a[0]), a[1..], b);
    }
  }

  /**
   After a stream-start frame the message buffer is empty and the stream
   has started; the sequence tracking is not reset.
   */
  lemma StreamStartEffect(st: Receiver, before: seq<bytes>, frame: bytes)
    requires IsStreamStart(frame)
    ensures OnFrames(st, before + [frame]).msgBuff == []
    ensures !OnFrames(st, before + [frame]).waitStart
    ensures OnFrames(st, before + [frame]).stats == OnFrames(st, before).stats
  {
    OnFramesAppend(st, before, [frame]);
    assert [frame][1..] == [];
  }

  /** While waiting for the stream start, chunks are dropped: nothing changes. */
  lemma {:induction false} WaitingDropsChunks(st: Receiver, frames: seq<bytes>)
    requires st.waitStart
    requires forall i :: 0 <= i < |frames| ==> !IsStreamStart(frames[i])
    ensures OnFrames(st, frames) == st
    decreases |frames|
  {
    if |frames| > 0 {
      assert forall i :: 0 <= i < |frames| - 1 ==> frames[1..][i] == frames[i + 1];
      WaitingDropsChunks(st, frames[1..]);
    }
  }

  /** The bytes 01 00 start the stream on a fresh receiver and leave nothing buffered. */
  lemma EmptyFrameStartsStream()
    ensures ProcessBuffer(Initial, [START_BYTE, END_BYTE]) ==
      Receiver([], [], false, Initial.stats.(totalBytes := 2))
  {
    DeframeSingle([], [], START_BYTE, END_BYTE);
    assert [] + [START_BYTE] + [] + [END_BYTE] == [START_BYTE, END_BYTE];
    assert Initial.rxBuff + [START_BYTE, END_BYTE] == [START_BYTE, END_BYTE];
    var frames: seq<bytes> := [[]];
    assert frames[1..] == [];
  }
}
