/**
 The delimiter scan shared by the host adapters and the receive test: find a
 start byte, then the first end byte after it, hand over the bytes strictly
 between, resume after the end byte, and keep the unconsumed tail.
 The same loop appears in `process_rx` of both adapter revisions and twice in
 the receive test (with 0x01/0x00 for link frames and '('/')' for messages).

 The loop walks an index `first` over one buffer; here the scan is stated on
 the bytes still ahead of `first`, so that each round drops the consumed
 frame. `MultiConnect.ProcessRx` runs the index loop itself and is proved to
 agree with this definition.
 */
module Framing {
  import opened PyBytes

  /** What one pass of the scan hands over, and the tail it keeps. */
  datatype Frames = Frames(messages: seq<bytes>, tail: bytes)

  /**
   Index of the end byte closing the first complete frame:
   `begin = find(sb)`, then `end = find(eb, begin + 1)`; -1 when either
   search fails and the loop breaks.
   */
  function NextEnd(buf: bytes, sb: byte, eb: byte): (r: int)
    ensures r == -1 || 0 < r < |buf|
  {
    var begin := Find(buf, sb, 0);
    if begin < 0 then -1 else Find(buf, eb, begin + 1)
  }

  /** The messages the loop hands over, in order. */
  function Messages(buf: bytes, sb: byte, eb: byte): (r: seq<bytes>)
    decreases |buf|
  {
    var end := NextEnd(buf, sb, eb);
    if end < 0 then []
    else [buf[Find(buf, sb, 0) + 1..end]] + Messages(buf[end + 1..], sb, eb)
  }

  /** The bytes kept for the next call: everything after the last end byte consumed. */
  function Tail(buf: bytes, sb: byte, eb: byte): (r: bytes)
    ensures |r| <= |buf|
    decreases |buf|
  {
    var end := NextEnd(buf, sb, eb);
    if end < 0 then buf else Tail(buf[end + 1..], sb, eb)
  }

  /** The kept tail is a suffix of the buffer. */
  lemma TailIsSuffix(buf: bytes, sb: byte, eb: byte)
    ensures Tail(buf, sb, eb) == buf[|buf| - |Tail(buf, sb, eb)|..]
  {
    TailSuffix(buf, sb, eb);
  }

  /** `t` is what is left of `buf` after dropping some prefix. */
  ghost predicate SuffixOf(t: bytes, buf: bytes)
  {
    |t| <= |buf| && t == buf[|buf| - |t|..]
  }

  lemma {:induction false} TailSuffix(buf: bytes, sb: byte, eb: byte)
    ensures SuffixOf(Tail(buf, sb, eb), buf)
    decreases |buf|
  {
    var end := NextEnd(buf, sb, eb);
    if end < 0 {
      assert Tail(buf, sb, eb) == buf;
      assert buf[0..] == buf;
    } else {
      var begin := Find(buf, sb, 0);
      var rest := buf[end + 1..];
      FrameAt(buf, sb, eb, begin, end);
      Rebase(buf, rest, buf[begin + 1..end], sb, eb, begin, end);
      TailSuffix(rest, sb, eb);
      SuffixOfDrop(buf, rest, end + 1, Tail(rest, sb, eb));
    }
  }

  lemma SuffixOfDrop(buf: bytes, rest: bytes, k: nat, r: bytes)
    requires k <= |buf| && rest == buf[k..] && SuffixOf(r, rest)
    ensures SuffixOf(r, buf)
  {
    assert rest[|rest| - |r|..] == buf[|buf| - |r|..];
  }

  /** One call of the loop on `buf`. */
  function Deframe(buf: bytes, sb: byte, eb: byte): (r: Frames)
  {
    Frames(Messages(buf, sb, eb), Tail(buf, sb, eb))
  }

  /** No `b` from index `lo` to the end. */
  predicate Absent(buf: bytes, b: byte, lo: nat)
  {
    forall k :: lo <= k < |buf| ==> buf[k] != b
  }

  /** No start byte is followed by an end byte: the buffer holds no complete frame. */
  predicate Unterminated(buf: bytes, sb: byte, eb: byte)
  {
    forall p :: 0 <= p < |buf| && buf[p] == sb ==> Absent(buf, eb, p + 1)
  }

  // ---- One round of the loop ----

  /** No `b` in `buf[lo..hi]`. */
  predicate NoneIn(buf: bytes, b: byte, lo: nat, hi: nat)
    requires lo <= hi <= |buf|
  {
    forall k :: lo <= k < hi ==> buf[k] != b
  }

  lemma NoneInSlice(buf: bytes, b: byte, lo: nat, hi: nat)
    requires lo <= hi <= |buf| && NoneIn(buf, b, lo, hi)
    ensures b !in buf[lo..hi]
  {
    assert forall k :: 0 <= k < hi - lo ==> buf[lo..hi][k] == buf[lo + k];
  }

  /**
   When a frame is found, the bytes before its start byte hold no start byte
   and its body holds no end byte; when none is found, `buf` holds no
   complete frame.
   */
  lemma NextEndSpec(buf: bytes, sb: byte, eb: byte)
    ensures NextEnd(buf, sb, eb) >= 0 ==>
      && buf[Find(buf, sb, 0)] == sb
      && NoneIn(buf, sb, 0, Find(buf, sb, 0))
      && buf[NextEnd(buf, sb, eb)] == eb
      && NoneIn(buf, eb, Find(buf, sb, 0) + 1, NextEnd(buf, sb, eb))
    ensures NextEnd(buf, sb, eb) < 0 <==> Unterminated(buf, sb, eb)
  {
    var begin := Find(buf, sb, 0);
    FindSpec(buf, sb, 0);
    if begin >= 0 {
      FindSpec(buf, eb, begin + 1);
      var end := Find(buf, eb, begin + 1);
      if end < 0 {
        forall p | 0 <= p < |buf| && buf[p] == sb ensures Absent(buf, eb, p + 1) {
          assert begin <= p;
        }
      } else {
        assert !Absent(buf, eb, begin + 1);
      }
    }
  }

  /** Splitting `g + [sb] + m + [eb] + rest` as the loop does. */
  lemma NextEndOf(g: bytes, m: bytes, rest: bytes, sb: byte, eb: byte)
    requires sb !in g && eb !in m
    ensures Find(g + [sb] + m + [eb] + rest, sb, 0) == |g|
    ensures NextEnd(g + [sb] + m + [eb] + rest, sb, eb) == |g| + 1 + |m|
  {
    var buf := g + [sb] + m + [eb] + rest;
    var e := |g| + 1 + |m|;
    assert forall k :: 0 <= k < |g| ==> buf[k] == g[k];
    FindFrom(buf, sb, 0, |g|);
    assert forall k :: |g| + 1 <= k < e ==> buf[k] == m[k - |g| - 1];
    FindFrom(buf, eb, |g| + 1, e);
  }

  /** `Find` from `k` is `i` when `s[i]` is the first `b` at or after `k`. */
  lemma FindFrom(s: bytes, b: byte, k: nat, i: nat)
    requires k <= i < |s| && s[i] == b
    requires forall j :: k <= j < i ==> s[j] != b
    ensures Find(s, b, k) == i
  {
    FindSpec(s, b, k);
  }

  // ---- What a call hands over ----

  /** A buffer with no complete frame is kept whole and hands over nothing. */
  lemma DeframeNone(buf: bytes, sb: byte, eb: byte)
    requires Unterminated(buf, sb, eb)
    ensures Deframe(buf, sb, eb) == Frames([], buf)
  {
    NextEndSpec(buf, sb, eb);
  }

  /**
   Bytes without a start byte, then a frame whose body has no end byte: the
   body is handed over first, the leading bytes are dropped, and the scan
   goes on after the frame.
   */
  lemma DeframeCons(g: bytes, m: bytes, rest: bytes, sb: byte, eb: byte)
    requires sb !in g && eb !in m
    ensures Deframe(g + [sb] + m + [eb] + rest, sb, eb) ==
      Frames([m] + Deframe(rest, sb, eb).messages, Deframe(rest, sb, eb).tail)
  {
    var buf := g + [sb] + m + [eb] + rest;
    NextEndOf(g, m, rest, sb, eb);
    var e := |g| + 1 + |m|;
    assert buf[|g| + 1..e] == m;
    assert buf[e + 1..] == rest;
  }

  /**
   Every message handed over lacks the end byte, and the kept tail holds no
   complete frame.
   */
  lemma DeframeSound(buf: bytes, sb: byte, eb: byte)
    ensures forall i :: 0 <= i < |Messages(buf, sb, eb)| ==> eb !in Messages(buf, sb, eb)[i]
    ensures Unterminated(Tail(buf, sb, eb), sb, eb)
  {
    MessagesNoEnd(buf, sb, eb);
    TailUnterminated(buf, sb, eb);
  }

  lemma {:induction false} MessagesNoEnd(buf: bytes, sb: byte, eb: byte)
    ensures forall i :: 0 <= i < |Messages(buf, sb, eb)| ==> eb !in Messages(buf, sb, eb)[i]
    decreases |buf|
  {
    var end := NextEnd(buf, sb, eb);
    if end >= 0 {
      var begin := Find(buf, sb, 0);
      var rest := buf[end + 1..];
      var m := buf[begin + 1..end];
      FrameAt(buf, sb, eb, begin, end);
      Rebase(buf, rest, m, sb, eb, begin, end);
      NextEndSpec(buf, sb, eb);
      NoneInSlice(buf, eb, begin + 1, end);
      MessagesNoEnd(rest, sb, eb);
      ConsNoEnd(m, Messages(rest, sb, eb), Messages(buf, sb, eb), eb);
    }
  }

  lemma {:induction false} TailUnterminated(buf: bytes, sb: byte, eb: byte)
    ensures Unterminated(Tail(buf, sb, eb), sb, eb)
    decreases |buf|
  {
    var end := NextEnd(buf, sb, eb);
    if end < 0 {
      NextEndSpec(buf, sb, eb);
    } else {
      var begin := Find(buf, sb, 0);
      var rest := buf[end + 1..];
      FrameAt(buf, sb, eb, begin, end);
      Rebase(buf, rest, buf[begin + 1..end], sb, eb, begin, end);
      TailUnterminated(rest, sb, eb);
    }
  }

  lemma ConsNoEnd(m: bytes, rest: seq<bytes>, ms: seq<bytes>, eb: byte)
    requires ms == [m] + rest && eb !in m
    requires forall i :: 0 <= i < |rest| ==> eb !in rest[i]
    ensures forall i :: 0 <= i < |ms| ==> eb !in ms[i]
  {
    forall i | 0 <= i < |ms| ensures eb !in ms[i] {
      if i > 0 { assert ms[i] == rest[i - 1]; }
    }
  }

  // ---- Splitting the input across calls ----

  lemma {:induction false} FindAppend(a: bytes, b: bytes, x: byte, k: nat)
    requires k <= |a| && Find(a, x, k) >= 0
    ensures Find(a + b, x, k) == Find(a, x, k)
    decreases |a| - k
  {
    if a[k] != x { FindAppend(a, b, x, k + 1); }
  }

  /** A frame complete in `a` is found, unchanged, in `a + b`. */
  lemma NextEndAppend(a: bytes, b: bytes, sb: byte, eb: byte)
    requires NextEnd(a, sb, eb) >= 0
    ensures NextEnd(a + b, sb, eb) == NextEnd(a, sb, eb)
    ensures Find(a + b, sb, 0) == Find(a, sb, 0)
  {
    FindAppend(a, b, sb, 0);
    FindAppend(a, b, eb, Find(a, sb, 0) + 1);
  }

  /**
   Feeding `x` and then `y` hands over the same messages as feeding `x + y`
   at once, and keeps the same tail: a frame split across reads is handed
   over once, when its end byte arrives.
   */
  lemma {:induction false} DeframeTwoCalls(x: bytes, y: bytes, sb: byte, eb: byte)
    ensures Deframe(x + y, sb, eb).messages ==
      Deframe(x, sb, eb).messages + Deframe(Deframe(x, sb, eb).tail + y, sb, eb).messages
    ensures Deframe(x + y, sb, eb).tail == Deframe(Deframe(x, sb, eb).tail + y, sb, eb).tail
    decreases |x|
  {
    var end := NextEnd(x, sb, eb);
    if end < 0 {
      assert Messages(x, sb, eb) == [] && Tail(x, sb, eb) == x;
      assert Messages(x + y, sb, eb) == [] + Messages(x + y, sb, eb);
    } else {
      var begin := Find(x, sb, 0);
      var rest := x[end + 1..];
      var m := x[begin + 1..end];
      FrameAt(x, sb, eb, begin, end);
      Rebase(x, rest, m, sb, eb, begin, end);
      NextEndAppend(x, y, sb, eb);
      AppendFrame(x, y, sb, eb, begin, end);
      DeframeTwoCalls(rest, y, sb, eb);
      var carried := Tail(rest, sb, eb) + y;
      Combine(m, Messages(x + y, sb, eb), Messages(x, sb, eb), Messages(rest, sb, eb),
        Messages(rest + y, sb, eb), Messages(carried, sb, eb));
    }
  }

  /** The list identity one round of the two-call argument rests on. */
  lemma Combine(m: bytes, whole: seq<bytes>, first: seq<bytes>, rest: seq<bytes>, restY: seq<bytes>, carried: seq<bytes>)
    requires whole == [m] + restY && first == [m] + rest && restY == rest + carried
    ensures whole == first + carried
  {
  }

  /** The first frame of `buf`, with the positions of its start and end bytes given by name. */
  lemma FrameAt(buf: bytes, sb: byte, eb: byte, begin: int, end: int)
    requires begin == Find(buf, sb, 0) && end == NextEnd(buf, sb, eb) && end >= 0
    ensures 0 <= begin < end < |buf|
    ensures Messages(buf, sb, eb) == [buf[begin + 1..end]] + Messages(buf[end + 1..], sb, eb)
    ensures Tail(buf, sb, eb) == Tail(buf[end + 1..], sb, eb)
  {
    DeframeStep(buf, sb, eb);
  }

  /** A frame complete in `x` is the first one handed over from `x + y`, with the same rest after it. */
  lemma AppendFrame(x: bytes, y: bytes, sb: byte, eb: byte, begin: int, end: int)
    requires 0 <= begin < end < |x|
    requires Find(x + y, sb, 0) == begin && NextEnd(x + y, sb, eb) == end
    ensures Messages(x + y, sb, eb) == [x[begin + 1..end]] + Messages(x[end + 1..] + y, sb, eb)
    ensures Tail(x + y, sb, eb) == Tail(x[end + 1..] + y, sb, eb)
  {
    var xy := x + y;
    var restY := x[end + 1..] + y;
    var m := x[begin + 1..end];
    DropAppend(x, y, end + 1);
    SliceAppend(x, y, begin + 1, end);
    Rebase(xy, restY, m, sb, eb, begin, end);
  }

  /** `FrameAt`, with the frame body and the rest after it given by name. */
  lemma Rebase(buf: bytes, rest: bytes, m: bytes, sb: byte, eb: byte, begin: int, end: int)
    requires 0 <= begin < end < |buf|
    requires begin == Find(buf, sb, 0) && end == NextEnd(buf, sb, eb)
    requires rest == buf[end + 1..] && m == buf[begin + 1..end]
    ensures Messages(buf, sb, eb) == [m] + Messages(rest, sb, eb)
    ensures Tail(buf, sb, eb) == Tail(rest, sb, eb)
  {
    FrameAt(buf, sb, eb, begin, end);
  }

  lemma ConsAssoc(m: bytes, a: seq<bytes>, b: seq<bytes>)
    ensures [m] + (a + b) == ([m] + a) + b
  {
  }

  lemma SliceAppend(a: bytes, b: bytes, lo: nat, hi: nat)
    requires lo <= hi <= |a|
    ensures (a + b)[lo..hi] == a[lo..hi]
  {
  }

  lemma DropAppend(a: bytes, b: bytes, k: nat)
    requires k <= |a|
    ensures (a + b)[k..] == a[k..] + b
  {
  }

  /** The next round of the loop, when a frame is found. */
  lemma DeframeStep(buf: bytes, sb: byte, eb: byte)
    requires NextEnd(buf, sb, eb) >= 0
    ensures Messages(buf, sb, eb) ==
      [buf[Find(buf, sb, 0) + 1..NextEnd(buf, sb, eb)]] + Messages(buf[NextEnd(buf, sb, eb) + 1..], sb, eb)
    ensures Tail(buf, sb, eb) == Tail(buf[NextEnd(buf, sb, eb) + 1..], sb, eb)
  {
  }

  /** One complete frame behind bytes without a start byte, nothing after it. */
  lemma DeframeSingle(g: bytes, payload: bytes, sb: byte, eb: byte)
    requires sb !in g && eb !in payload
    ensures Deframe(g + [sb] + payload + [eb], sb, eb) == Frames([payload], [])
  {
    DeframeCons(g, payload, [], sb, eb);
    assert g + [sb] + payload + [eb] + [] == g + [sb] + payload + [eb];
    DeframeNone([], sb, eb);
  }
}
