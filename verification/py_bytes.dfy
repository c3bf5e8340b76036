/**
 The operations on Python `bytes` that the host scripts rely on: `find` of a
 single byte, `split` and `join` on a one-byte separator, `strip()` of ASCII
 whitespace, `b'%u' % n` and `int()` of a decimal field.
 */
module PyBytes {
  import opened Options

  type byte = x: int | 0 <= x < 256
  type bytes = seq<byte>

  const DIGIT_ZERO: byte := 0x30
  const DIGIT_NINE: byte := 0x39
  const SPACE: byte := 0x20

  /**
   `s.find(bytes([b]), start)`: the lowest index at or after `start` holding
   `b`, or -1 when there is none.
   */
  function Find(s: bytes, b: byte, start: nat): (r: int)
    ensures r == -1 || start <= r < |s|
    decreases |s| - start
  {
    if start >= |s| then -1
    else if s[start] == b then start
    else Find(s, b, start + 1)
  }

  /** `Find` yields the first occurrence at or after `start`, and -1 exactly when there is none. */
  lemma {:induction false} FindSpec(s: bytes, b: byte, start: nat)
    ensures Find(s, b, start) >= 0 ==> s[Find(s, b, start)] == b
    ensures Find(s, b, start) >= 0 ==> forall k :: start <= k < Find(s, b, start) ==> s[k] != b
    ensures Find(s, b, start) == -1 <==> forall k :: start <= k < |s| ==> s[k] != b
    decreases |s| - start
  {
    if start < |s| && s[start] != b {
      FindSpec(s, b, start + 1);
    }
  }

  /** `s.split(bytes([d]))`: the fields between separators, always at least one. */
  function Split(s: bytes, d: byte): (r: seq<bytes>)
    ensures |r| >= 1
    ensures forall i :: 0 <= i < |r| ==> d !in r[i]
    decreases |s|
  {
    var i := Find(s, d, 0);
    FindSpec(s, d, 0);
    if i < 0 then [s] else [s[..i]] + Split(s[i + 1..], d)
  }

  /** `bytes([d]).join(ps)`. */
  function Join(ps: seq<bytes>, d: byte): bytes
    decreases |ps|
  {
    if |ps| == 0 then []
    else if |ps| == 1 then ps[0]
    else ps[0] + [d] + Join(ps[1..], d)
  }

  lemma {:induction false} JoinSplit(s: bytes, d: byte)
    ensures Join(Split(s, d), d) == s
    decreases |s|
  {
    var i := Find(s, d, 0);
    FindSpec(s, d, 0);
    if i >= 0 {
      var ps := Split(s, d);
      assert ps == [s[..i]] + Split(s[i + 1..], d);
      assert |ps| >= 2 && ps[0] == s[..i] && ps[1..] == Split(s[i + 1..], d);
      JoinSplit(s[i + 1..], d);
      assert s == s[..i] + [d] + s[i + 1..];
    }
  }

  lemma {:induction false} SplitJoin(ps: seq<bytes>, d: byte)
    requires |ps| >= 1
    requires forall i :: 0 <= i < |ps| ==> d !in ps[i]
    ensures Split(Join(ps, d), d) == ps
    decreases |ps|
  {
    if |ps| == 1 {
      FindSpec(ps[0], d, 0);
    } else {
      var rest := Join(ps[1..], d);
      var s := ps[0] + [d] + rest;
      assert Find(s, d, 0) == |ps[0]| by {
        FindFirst(s, d, |ps[0]|);
      }
      assert s[..|ps[0]|] == ps[0];
      assert s[|ps[0]| + 1..] == rest;
      SplitJoin(ps[1..], d);
      assert ps == [ps[0]] + ps[1..];
    }
  }

  /** Joining three fields puts one separator between each pair. */
  lemma JoinThree(a: bytes, b: bytes, c: bytes, d: byte)
    ensures Join([a, b, c], d) == a + [d] + b + [d] + c
  {
    assert [a, b, c][1..] == [b, c];
    assert [b, c][1..] == [c];
    assert Join([b, c], d) == b + [d] + c;
    assert a + [d] + (b + [d] + c) == a + [d] + b + [d] + c;
  }

  /** Three fields free of the separator, joined by it, split back into the three. */
  lemma SplitThree(a: bytes, b: bytes, c: bytes, d: byte)
    requires d !in a && d !in b && d !in c
    ensures Split(a + [d] + b + [d] + c, d) == [a, b, c]
  {
    JoinThree(a, b, c, d);
    SplitJoin([a, b, c], d);
  }

  /** `Find` from 0 is the first index holding `b`. */
  lemma FindFirst(s: bytes, b: byte, i: nat)
    requires i < |s| && s[i] == b
    requires forall k :: 0 <= k < i ==> s[k] != b
    ensures Find(s, b, 0) == i
  {
    FindSpec(s, b, 0);
  }

  /** The bytes `bytes.strip()` removes: space, tab, newline, vertical tab, form feed, return. */
  predicate IsSpace(b: byte)
  {
    b == SPACE || 0x09 <= b <= 0x0D
  }

  function LeadingSpaces(s: bytes): (n: nat)
    ensures n <= |s|
    ensures forall k :: 0 <= k < n ==> IsSpace(s[k])
    ensures n < |s| ==> !IsSpace(s[n])
    decreases |s|
  {
    if |s| > 0 && IsSpace(s[0]) then 1 + LeadingSpaces(s[1..]) else 0
  }

  function TrailingSpaces(s: bytes): (n: nat)
    ensures n <= |s|
    ensures forall k :: |s| - n <= k < |s| ==> IsSpace(s[k])
    ensures n < |s| ==> !IsSpace(s[|s| - n - 1])
    decreases |s|
  {
    if |s| > 0 && IsSpace(s[|s| - 1]) then 1 + TrailingSpaces(s[..|s| - 1]) else 0
  }

  /** `s.strip()` with no argument. */
  function Strip(s: bytes): (r: bytes)
    ensures |r| <= |s|
    ensures |r| > 0 ==> !IsSpace(r[0]) && !IsSpace(r[|r| - 1])
    ensures (forall k :: 0 <= k < |s| ==> IsSpace(s[k])) ==> r == []
  {
    var t := s[LeadingSpaces(s)..];
    t[..|t| - TrailingSpaces(t)]
  }

  /** Strip removes exactly the whitespace padding and nothing of the text between. */
  lemma StripPadded(p: bytes, t: bytes, q: bytes)
    requires forall k :: 0 <= k < |p| ==> IsSpace(p[k])
    requires forall k :: 0 <= k < |q| ==> IsSpace(q[k])
    requires |t| > 0 ==> !IsSpace(t[0]) && !IsSpace(t[|t| - 1])
    ensures Strip(p + t + q) == t
  {
    var s := p + t + q;
    if |t| == 0 {
      assert forall k :: 0 <= k < |s| ==> IsSpace(s[k]) by {
        forall k | 0 <= k < |s| ensures IsSpace(s[k]) {
          if k < |p| { assert s[k] == p[k]; } else { assert s[k] == q[k - |p|]; }
        }
      }
    } else {
      LeadingSpacesOf(s, |p|);
      var u := s[|p|..];
      assert u == t + q;
      TrailingSpacesOf(u, |q|);
      assert u[..|u| - |q|] == t;
    }
  }

  lemma LeadingSpacesOf(s: bytes, n: nat)
    requires n < |s| && !IsSpace(s[n])
    requires forall k :: 0 <= k < n ==> IsSpace(s[k])
    ensures LeadingSpaces(s) == n
  {
  }

  lemma TrailingSpacesOf(s: bytes, n: nat)
    requires n < |s| && !IsSpace(s[|s| - n - 1])
    requires forall k :: |s| - n <= k < |s| ==> IsSpace(s[k])
    ensures TrailingSpaces(s) == n
  {
  }

  /** Stripping twice is stripping once. */
  lemma StripIdempotent(s: bytes)
    ensures Strip(Strip(s)) == Strip(s)
  {
    StripPadded([], Strip(s), []);
    assert [] + Strip(s) + [] == Strip(s);
  }

  predicate IsDigit(b: byte)
  {
    DIGIT_ZERO <= b <= DIGIT_NINE
  }

  /** The ASCII digit for `d`. */
  function DigitChar(d: nat): (c: byte)
    requires d < 10
    ensures IsDigit(c) && DigitValue(c) == d
  {
    [0x30, 0x31, 0x32, 0x33, 0x34, 0x35, 0x36, 0x37, 0x38, 0x39][d]
  }

  /** The value of an ASCII digit. */
  function DigitValue(c: byte): nat
    requires IsDigit(c)
  {
    (c as int) - 0x30
  }

  /** `b'%u' % n`: decimal digits, most significant first, no leading zero. */
  function Decimal(n: nat): (r: bytes)
    ensures |r| >= 1
    ensures forall k :: 0 <= k < |r| ==> IsDigit(r[k])
    ensures |r| > 1 ==> r[0] != DIGIT_ZERO
    decreases n
  {
    if n < 10 then [DigitChar(n)]
    else Decimal(n / 10) + [DigitChar(n % 10)]
  }

  const PLUS: byte := 0x2B
  const MINUS: byte := 0x2D
  const UNDERSCORE: byte := 0x5F

  /** Digits and underscores, each underscore followed by a digit. */
  predicate Grouped(s: bytes)
    decreases |s|
  {
    || |s| == 0
    || (IsDigit(s[0]) && Grouped(s[1..]))
    || (s[0] == UNDERSCORE && |s| > 1 && IsDigit(s[1]) && Grouped(s[1..]))
  }

  /** The digit part `int()` accepts: a digit first, single underscores between digits. */
  predicate IsDigitRun(s: bytes)
  {
    |s| > 0 && IsDigit(s[0]) && Grouped(s)
  }

  /** The value of a digit run, skipping its underscores. */
  function RunValue(s: bytes): nat
    decreases |s|
  {
    if |s| == 0 then 0
    else if IsDigit(s[|s| - 1]) then RunValue(s[..|s| - 1]) * 10 + DigitValue(s[|s| - 1])
    else RunValue(s[..|s| - 1])
  }

  lemma {:induction false} GroupedDigits(s: bytes)
    requires forall k :: 0 <= k < |s| ==> IsDigit(s[k])
    ensures Grouped(s)
    decreases |s|
  {
    if |s| > 0 {
      GroupedDigits(s[1..]);
    }
  }

  /** A digit run holds only digits and underscores, and ends in a digit. */
  lemma {:induction false} GroupedBytes(s: bytes)
    requires Grouped(s)
    ensures forall k :: 0 <= k < |s| ==> IsDigit(s[k]) || s[k] == UNDERSCORE
    ensures |s| > 0 ==> IsDigit(s[|s| - 1])
    decreases |s|
  {
    if |s| > 0 {
      GroupedBytes(s[1..]);
      assert forall k :: 1 <= k < |s| ==> s[k] == s[1..][k - 1];
    }
  }

  /**
   `int(s)` on a bytes field, base 10: surrounding whitespace, one sign and
   underscores between digits are accepted; `None` where Python raises
   ValueError.
   */
  function ParseInt(s: bytes): (r: Option<int>)
  {
    ParseSigned(Strip(s))
  }

  /** A field `int()` accepts is, once stripped, non-empty and made of digits, signs and underscores. */
  lemma ParseIntShape(s: bytes)
    requires ParseInt(s).Some?
    ensures |Strip(s)| > 0
    ensures forall k :: 0 <= k < |Strip(s)| ==>
      IsDigit(Strip(s)[k]) || Strip(s)[k] in {PLUS, MINUS, UNDERSCORE}
  {
    var t := Strip(s);
    if |t| > 0 && (t[0] == PLUS || t[0] == MINUS) {
      GroupedBytes(t[1..]);
      assert forall k :: 1 <= k < |t| ==> t[k] == t[1..][k - 1];
    } else {
      GroupedBytes(t);
    }
  }

  /** An optionally signed digit run. */
  function ParseSigned(t: bytes): (r: Option<int>)
  {
    if |t| > 0 && (t[0] == PLUS || t[0] == MINUS) then
      if !IsDigitRun(t[1..]) then None
      else if t[0] == MINUS then Some(-(RunValue(t[1..]) as int))
      else Some(RunValue(t[1..]))
    else if IsDigitRun(t) then Some(RunValue(t))
    else None
  }

  lemma {:induction false} RunValueOfDecimal(n: nat)
    ensures RunValue(Decimal(n)) == n
    decreases n
  {
    var r := Decimal(n);
    if n >= 10 {
      RunValueOfDecimal(n / 10);
      assert r[..|r| - 1] == Decimal(n / 10);
    }
  }

  /** A decimal holds no byte other than digits. */
  lemma DecimalAvoids(n: nat, b: byte)
    requires !IsDigit(b)
    ensures b !in Decimal(n)
  {
    var d := Decimal(n);
    forall k | 0 <= k < |d| ensures d[k] != b {
      assert IsDigit(d[k]);
    }
  }

  /** A decimal is a digit run worth `n`. */
  lemma DecimalRun(n: nat)
    ensures IsDigitRun(Decimal(n)) && RunValue(Decimal(n)) == n
  {
    RunValueOfDecimal(n);
    GroupedDigits(Decimal(n));
  }

  /** `int(b'%u' % n) == n`, also with whitespace around it. */
  lemma ParseIntOfDecimal(n: nat, p: bytes, q: bytes)
    requires forall k :: 0 <= k < |p| ==> IsSpace(p[k])
    requires forall k :: 0 <= k < |q| ==> IsSpace(q[k])
    ensures ParseInt(p + Decimal(n) + q) == Some(n)
  {
    var d := Decimal(n);
    DecimalRun(n);
    StripPadded(p, d, q);
  }

  /** `int(b'-%u' % n) == -n`. */
  lemma ParseIntOfNegative(n: nat)
    ensures ParseInt([MINUS] + Decimal(n)) == Some(-(n as int))
  {
    var d := Decimal(n);
    DecimalRun(n);
    NegativeRun(d, n);
  }

  /** A minus sign before a digit run negates its value. */
  lemma NegativeRun(r: bytes, n: nat)
    requires IsDigitRun(r) && RunValue(r) == n
    ensures ParseInt([MINUS] + r) == Some(-(n as int))
  {
    var m := [MINUS] + r;
    GroupedBytes(r);
    assert m[|m| - 1] == r[|r| - 1];
    StripPadded([], m, []);
    assert [] + m + [] == m;
    assert Strip(m) == m;
    assert m[0] == MINUS && m[1..] == r;
    SignedMinus(m, n);
  }

  lemma SignedMinus(t: bytes, n: nat)
    requires |t| > 0 && t[0] == MINUS && IsDigitRun(t[1..]) && RunValue(t[1..]) == n
    ensures ParseSigned(t) == Some(-(n as int))
  {
  }

  /** A field that is empty or only whitespace is not a number. */
  lemma ParseIntBlank(s: bytes)
    requires forall k :: 0 <= k < |s| ==> IsSpace(s[k])
    ensures ParseInt(s) == None
  {
  }
}
