/**
 The base64 codec of ble_uart_mx/mx_encoding.cpp (alphabet and padding of
 section 4 of RFC 4648) and the declarations of ble_uart_mx/mx_encoding.h.
 Characters are bytes: whether `char` is signed on the target does not
 matter, since every byte outside the alphabet is invalid either way.
 `union b64buffer` is modelled as its 32-bit word on a little-endian
 target, where `byte[k]` is bits 8k..8k+7 of `word`.
 */
module MxEncoding {
  import opened Options
  import opened Words

  /** `ENCODED_DATA_START_TAG`: the byte that starts base64-encoded data in a text stream. */
  const ENCODED_DATA_START_TAG: u8 := 2

  const LETTERS: u8 := 26
  const INVALID: u8 := 0xFF
  const PAD: u8 := 0x3D  // '='

  /** A byte of the base64 alphabet: a letter, a digit, `+` or `/`. */
  predicate IsSymbol(c: u8)
  {
    || (0x41 <= c <= 0x5A) || (0x61 <= c <= 0x7A) || (0x30 <= c <= 0x39)
    || c == 0x2B || c == 0x2F
  }

  /** `b64symbol(code)`: the symbol of a 6-bit code, 0 for a code above 63. */
  function B64Symbol(code: u8): u8
  {
    if code < LETTERS then 0x41 + code
    else if code < 2 * LETTERS then 0x61 + code - LETTERS
    else if code < 2 * LETTERS + 10 then 0x30 + code - 2 * LETTERS
    else if code == 2 * LETTERS + 10 then 0x2B
    else if code == 2 * LETTERS + 11 then 0x2F
    else 0
  }

  /** `b64code(symbol)`: the code of an alphabet symbol, 0 for `=`, `INVALID` for anything else. */
  function B64Code(symbol: u8): u8
  {
    if 0x41 <= symbol <= 0x5A then symbol - 0x41
    else if 0x61 <= symbol <= 0x7A then symbol - 0x61 + LETTERS
    else if 0x30 <= symbol <= 0x39 then symbol - 0x30 + 2 * LETTERS
    else if symbol == 0x2B then 2 * LETTERS + 10
    else if symbol == 0x2F then 2 * LETTERS + 11
    else if symbol == PAD then 0
    else INVALID
  }

  /** Every code below 64 has an alphabet symbol, which decodes back to the code. */
  lemma SymbolCode(code: u8)
    requires code < 64
    ensures IsSymbol(B64Symbol(code)) && B64Code(B64Symbol(code)) == code
  {
  }

  /** The alphabet runs A-Z, a-z, 0-9, `+`, `/` from code 0 to 63 in consecutive runs, as in Table 1 of RFC 4648. */
  lemma AlphabetOrder()
    ensures B64Symbol(0) == 0x41 && B64Symbol(25) == 0x5A     // 'A', 'Z'
    ensures B64Symbol(26) == 0x61 && B64Symbol(51) == 0x7A    // 'a', 'z'
    ensures B64Symbol(52) == 0x30 && B64Symbol(61) == 0x39    // '0', '9'
    ensures B64Symbol(62) == 0x2B && B64Symbol(63) == 0x2F    // '+', '/'
    ensures forall code: u8 :: code < 61 && code != 25 && code != 51 ==> B64Symbol(code + 1) == B64Symbol(code) + 1
    ensures forall code: u8 :: code >= 64 ==> B64Symbol(code) == 0
  {
  }

  /** Every alphabet symbol is the symbol of its code; `=` and the alphabet are exactly the bytes that are not invalid. */
  lemma CodeSymbol(c: u8)
    ensures IsSymbol(c) ==> B64Code(c) < 64 && B64Symbol(B64Code(c)) == c
    ensures B64Code(c) != INVALID <==> IsSymbol(c) || c == PAD
    ensures c == PAD ==> B64Code(c) == 0
  {
  }

  /** `byte[k]` of the union: bits 8k..8k+7 of `word`. */
  function ByteAt(w: u32, k: nat): u8
    requires k < 4
  {
    if k == 0 then (w & 0xFF) as u8
    else if k == 1 then ((w >> 8) & 0xFF) as u8
    else if k == 2 then ((w >> 16) & 0xFF) as u8
    else ((w >> 24) & 0xFF) as u8
  }

  /** `set_byte(b, idx)`: stores `b` into `byte[2 - idx]`. */
  function SetByte(w: u32, b: u8, idx: nat): u32
    requires idx < 3
  {
    if idx == 0 then (w & 0xFF00_FFFF) | (b as u32 << 16)
    else if idx == 1 then (w & 0xFFFF_00FF) | (b as u32 << 8)
    else (w & 0xFFFF_FF00) | b as u32
  }

  /** `get_byte(idx)`: reads `byte[2 - idx]`. */
  function GetByte(w: u32, idx: nat): u8
    requires idx < 3
  {
    ByteAt(w, 2 - idx)
  }

  /** `get_code(idx)`: the 6 bits of `word` starting at bit `6 * (3 - idx)`. */
  function GetCode(w: u32, idx: nat): u8
    requires idx < 4
  {
    if idx == 0 then ((w >> 18) & 63) as u8
    else if idx == 1 then ((w >> 12) & 63) as u8
    else if idx == 2 then ((w >> 6) & 63) as u8
    else (w & 63) as u8
  }

  /** `set_code(b, idx)`: or-s `b` into `word` at bit `6 * (3 - idx)`. */
  function SetCode(w: u32, b: u8, idx: nat): u32
    requires idx < 4
  {
    if idx == 0 then w | (b as u32 << 18)
    else if idx == 1 then w | (b as u32 << 12)
    else if idx == 2 then w | (b as u32 << 6)
    else w | b as u32
  }

  /** `set_byte` changes the one byte it addresses and no other. */
  lemma SetByteSpec(w: u32, b: u8, idx: nat)
    requires idx < 3
    ensures ByteAt(SetByte(w, b, idx), 2 - idx) == b
    ensures forall k :: 0 <= k < 4 && k != 2 - idx ==> ByteAt(SetByte(w, b, idx), k) == ByteAt(w, k)
  {
    if idx == 0 {
      SetByte0(w, b);
    } else if idx == 1 {
      SetByte1(w, b);
    } else {
      SetByte2(w, b);
    }
  }

  /** The four bytes of a word, each as the expression it stands for. */
  lemma Lanes(w: u32)
    ensures ByteAt(w, 0) == (w & 0xFF) as u8 && ByteAt(w, 1) == ((w >> 8) & 0xFF) as u8
    ensures ByteAt(w, 2) == ((w >> 16) & 0xFF) as u8 && ByteAt(w, 3) == ((w >> 24) & 0xFF) as u8
  {
  }

  lemma SetByte0(w: u32, b: u8)
    ensures ByteAt(SetByte(w, b, 0), 2) == b
    ensures forall k :: 0 <= k < 4 && k != 2 ==> ByteAt(SetByte(w, b, 0), k) == ByteAt(w, k)
  {
    var v := SetByte(w, b, 0);
    assert v == (w & 0xFF00_FFFF) | (b as u32 << 16);
    Lanes(v);
    Lanes(w);
  }

  lemma SetByte1(w: u32, b: u8)
    ensures ByteAt(SetByte(w, b, 1), 1) == b
    ensures forall k :: 0 <= k < 4 && k != 1 ==> ByteAt(SetByte(w, b, 1), k) == ByteAt(w, k)
  {
    var v := SetByte(w, b, 1);
    assert v == (w & 0xFFFF_00FF) | (b as u32 << 8);
    Lanes(v);
    Lanes(w);
  }

  lemma SetByte2(w: u32, b: u8)
    ensures ByteAt(SetByte(w, b, 2), 0) == b
    ensures forall k :: 0 <= k < 4 && k != 0 ==> ByteAt(SetByte(w, b, 2), k) == ByteAt(w, k)
  {
    var v := SetByte(w, b, 2);
    assert v == (w & 0xFFFF_FF00) | b as u32;
    Lanes(v);
    Lanes(w);
  }

  /** The buffer after the three `set_byte` calls of one encoding step. */
  function Load(buf: u32, b0: u8, b1: u8, b2: u8): u32
  {
    SetByte(SetByte(SetByte(buf, b0, 0), b1, 1), b2, 2)
  }

  /** The buffer after `reset` and the four `set_code` calls of one decoding step. */
  function Pack(c0: u8, c1: u8, c2: u8, c3: u8): u32
  {
    SetCode(SetCode(SetCode(SetCode(0, c0, 0), c1, 1), c2, 2), c3, 3)
  }

  /** Four 6-bit codes form the word c0<<18 | c1<<12 | c2<<6 | c3, whose bytes are read from the top. */
  lemma PackLayout(c0: u8, c1: u8, c2: u8, c3: u8)
    requires c0 < 64 && c1 < 64 && c2 < 64 && c3 < 64
    ensures Pack(c0, c1, c2, c3) == (c0 as u32 << 18) | (c1 as u32 << 12) | (c2 as u32 << 6) | c3 as u32
    ensures Pack(c0, c1, c2, c3) < 0x100_0000
    ensures GetByte(Pack(c0, c1, c2, c3), 0) == (Pack(c0, c1, c2, c3) >> 16) as u8
    ensures GetByte(Pack(c0, c1, c2, c3), 1) == ((Pack(c0, c1, c2, c3) >> 8) & 0xFF) as u8
    ensures GetByte(Pack(c0, c1, c2, c3), 2) == (Pack(c0, c1, c2, c3) & 0xFF) as u8
  {
  }

  /** Every `get_code` is a 6-bit code. */
  lemma CodeBelow64(w: u32, idx: nat)
    requires idx < 4
    ensures GetCode(w, idx) < 64
  {
  }

  /** The codes of a loaded buffer do not depend on what the buffer held before: `byte[3]` is never read. */
  lemma LoadForgets(buf: u32, buf': u32, b0: u8, b1: u8, b2: u8, idx: nat)
    requires idx < 4
    ensures GetCode(Load(buf, b0, b1, b2), idx) == GetCode(Load(buf', b0, b1, b2), idx)
  {
  }

  /** Packing the four codes read from a loaded buffer gives back its three bytes. */
  lemma Repack(buf: u32, b0: u8, b1: u8, b2: u8)
    ensures var w := Load(buf, b0, b1, b2);
      var v := Pack(GetCode(w, 0), GetCode(w, 1), GetCode(w, 2), GetCode(w, 3));
      GetByte(v, 0) == b0 && GetByte(v, 1) == b1 && GetByte(v, 2) == b2
  {
  }

  /** The four symbols of the codes of a loaded buffer. */
  function Quad(w: u32): (q: seq<u8>)
    ensures |q| == 4
  {
    [B64Symbol(GetCode(w, 0)), B64Symbol(GetCode(w, 1)), B64Symbol(GetCode(w, 2)), B64Symbol(GetCode(w, 3))]
  }

  /**
   `encode(bin_data, len, asc_data)`: the symbols written for `bin`, the
   union starting out as `buf` (it is not initialised in the source; see
   `EncodeAnyBuffer`). `out_len` is the length of the result.
   */
  function EncodeFrom(bin: seq<u8>, buf: u32): seq<u8>
    decreases |bin|
  {
    if |bin| == 0 then []
    else if |bin| >= 3 then
      var w := Load(buf, bin[0], bin[1], bin[2]);
      Quad(w) + EncodeFrom(bin[3..], w)
    else if |bin| == 2 then
      var w := Load(buf, bin[0], bin[1], 0);
      [B64Symbol(GetCode(w, 0)), B64Symbol(GetCode(w, 1)), B64Symbol(GetCode(w, 2)), PAD]
    else
      var w := Load(buf, bin[0], 0, 0);
      [B64Symbol(GetCode(w, 0)), B64Symbol(GetCode(w, 1)), PAD, PAD]
  }

  /** The number of `=` the encoding of `n` bytes ends with. */
  function Padding(n: nat): nat
  {
    (3 - n % 3) % 3
  }

  /** `MAX_BASE64_ENCODED_LEN(raw_len)` as the header defines it. */
  function MaxBase64EncodedLenAsWritten(n: nat): nat
  {
    n
  }

  /** The encoded length of `n` bytes with padding: 4 symbols per started group of 3. */
  function MaxBase64EncodedLen(n: nat): nat
  {
    4 * ((n + 2) / 3)
  }

  /** `MAX_ENCODED_DATA_LEN` for a given `MAX_CHUNK`, with the encoded length corrected. */
  function MaxEncodedDataLen(maxChunk: nat): nat
  {
    MaxBase64EncodedLen(maxChunk)
  }

  /** The result of `encode` has 4 symbols for every started group of 3 bytes. */
  lemma {:induction false} EncodeLength(bin: seq<u8>, buf: u32)
    ensures |EncodeFrom(bin, buf)| == MaxBase64EncodedLen(|bin|)
    decreases |bin|
  {
    if |bin| >= 3 {
      EncodeLength(bin[3..], Load(buf, bin[0], bin[1], bin[2]));
    }
  }

  /** The header's `MAX_BASE64_ENCODED_LEN` is short of the encoded length of every non-empty input. */
  lemma EncodeExceedsMacro(bin: seq<u8>, buf: u32)
    requires |bin| >= 1
    ensures |EncodeFrom(bin, buf)| > MaxBase64EncodedLenAsWritten(|bin|)
  {
    EncodeLength(bin, buf);
  }

  /** With the corrected length, every chunk of at most `maxChunk` bytes fits in `MAX_ENCODED_DATA_LEN`. */
  lemma EncodeFitsChunk(bin: seq<u8>, buf: u32, maxChunk: nat)
    requires |bin| <= maxChunk
    ensures |EncodeFrom(bin, buf)| <= MaxEncodedDataLen(maxChunk)
  {
    EncodeLength(bin, buf);
  }

  /** Only symbols and `=`, and `=` exactly in the last `pad` places. */
  predicate Shaped(asc: seq<u8>, pad: nat)
  {
    forall k :: 0 <= k < |asc| ==>
      && (asc[k] == PAD <==> k + pad >= |asc|)
      && (asc[k] != PAD ==> IsSymbol(asc[k]))
  }

  /** Four alphabet symbols in front keep the shape. */
  lemma ShapedCons(q: seq<u8>, rest: seq<u8>, pad: nat)
    requires |q| == 4 && forall k :: 0 <= k < 4 ==> IsSymbol(q[k])
    requires Shaped(rest, pad) && pad <= |rest|
    ensures Shaped(q + rest, pad)
  {
    forall k | 0 <= k < |q + rest|
      ensures (q + rest)[k] == PAD <==> k + pad >= |q + rest|
      ensures (q + rest)[k] != PAD ==> IsSymbol((q + rest)[k])
    {
      if k >= 4 {
        assert (q + rest)[k] == rest[k - 4];
      } else {
        assert (q + rest)[k] == q[k];
      }
    }
  }

  /** The symbol of any code read from a buffer is an alphabet symbol. */
  lemma SymbolOf(w: u32, idx: nat)
    requires idx < 4
    ensures IsSymbol(B64Symbol(GetCode(w, idx)))
    ensures B64Code(B64Symbol(GetCode(w, idx))) == GetCode(w, idx)
  {
    CodeBelow64(w, idx);
    SymbolCode(GetCode(w, idx));
  }

  /** The symbols of a full group are alphabet symbols. */
  lemma QuadSymbols(w: u32)
    ensures forall k :: 0 <= k < 4 ==> IsSymbol(Quad(w)[k])
  {
    SymbolOf(w, 0);
    SymbolOf(w, 1);
    SymbolOf(w, 2);
    SymbolOf(w, 3);
  }

  /** `encode` writes only alphabet symbols and `=`, and `=` only as the last `Padding(len)` symbols. */
  lemma {:induction false} EncodeShape(bin: seq<u8>, buf: u32)
    ensures Shaped(EncodeFrom(bin, buf), Padding(|bin|))
    ensures Padding(|bin|) <= |EncodeFrom(bin, buf)|
    decreases |bin|
  {
    if |bin| >= 3 {
      var w := Load(buf, bin[0], bin[1], bin[2]);
      EncodeShape(bin[3..], w);
      QuadSymbols(w);
      PaddingStep(|bin|);
      ShapedCons(Quad(w), EncodeFrom(bin[3..], w), Padding(|bin[3..]|));
    } else if |bin| == 2 {
      var w := Load(buf, bin[0], bin[1], 0);
      SymbolOf(w, 0);
      SymbolOf(w, 1);
      SymbolOf(w, 2);
      ShapedLast([B64Symbol(GetCode(w, 0)), B64Symbol(GetCode(w, 1)), B64Symbol(GetCode(w, 2)), PAD], 1);
    } else if |bin| == 1 {
      var w := Load(buf, bin[0], 0, 0);
      SymbolOf(w, 0);
      SymbolOf(w, 1);
      ShapedLast([B64Symbol(GetCode(w, 0)), B64Symbol(GetCode(w, 1)), PAD, PAD], 2);
    }
  }

  lemma PaddingStep(n: nat)
    requires n >= 3
    ensures Padding(n) == Padding(n - 3)
  {
  }

  /** A padded last group: symbols, then `pad` copies of `=`. */
  lemma ShapedLast(q: seq<u8>, pad: nat)
    requires |q| == 4 && 1 <= pad <= 2
    requires forall k :: 0 <= k < 4 - pad ==> IsSymbol(q[k])
    requires forall k :: 4 - pad <= k < 4 ==> q[k] == PAD
    ensures Shaped(q, pad)
  {
  }

  /** What the uninitialised union held makes no difference to the output of `encode`. */
  lemma {:induction false} EncodeAnyBuffer(bin: seq<u8>, buf: u32, buf': u32)
    ensures EncodeFrom(bin, buf) == EncodeFrom(bin, buf')
    decreases |bin|
  {
    if |bin| >= 3 {
      var w := Load(buf, bin[0], bin[1], bin[2]);
      var w' := Load(buf', bin[0], bin[1], bin[2]);
      LoadForgets(buf, buf', bin[0], bin[1], bin[2], 0);
      LoadForgets(buf, buf', bin[0], bin[1], bin[2], 1);
      LoadForgets(buf, buf', bin[0], bin[1], bin[2], 2);
      LoadForgets(buf, buf', bin[0], bin[1], bin[2], 3);
      EncodeAnyBuffer(bin[3..], w, w');
    } else if |bin| == 2 {
      LoadForgets(buf, buf', bin[0], bin[1], 0, 0);
      LoadForgets(buf, buf', bin[0], bin[1], 0, 1);
      LoadForgets(buf, buf', bin[0], bin[1], 0, 2);
    } else if |bin| == 1 {
      LoadForgets(buf, buf', bin[0], 0, 0, 0);
      LoadForgets(buf, buf', bin[0], 0, 0, 1);
    }
  }

  /** The number of `=` in `q`. */
  function Pads(q: seq<u8>): nat
    decreases |q|
  {
    if |q| == 0 then 0 else (if q[0] == PAD then 1 else 0) + Pads(q[1..])
  }

  /** The `=` of a group, one symbol at a time. */
  lemma PadsOfGroup(q: seq<u8>)
    requires |q| == 4
    ensures Pads(q) == (if q[0] == PAD then 1 else 0) + (if q[1] == PAD then 1 else 0)
      + (if q[2] == PAD then 1 else 0) + (if q[3] == PAD then 1 else 0)
  {
    var q1 := q[1..];
    var q2 := q1[1..];
    var q3 := q2[1..];
    assert q1[0] == q[1] && q2[0] == q[2] && q3[0] == q[3] && q3[1..] == [];
    assert Pads(q) == (if q[0] == PAD then 1 else 0) + Pads(q1);
    assert Pads(q1) == (if q[1] == PAD then 1 else 0) + Pads(q2);
    assert Pads(q2) == (if q[2] == PAD then 1 else 0) + Pads(q3);
    assert Pads(q3) == (if q[3] == PAD then 1 else 0);
  }

  /** Whether `b64code` rejects any of the four symbols of a group. */
  predicate Rejects(q: seq<u8>)
    requires |q| == 4
  {
    B64Code(q[0]) == INVALID || B64Code(q[1]) == INVALID || B64Code(q[2]) == INVALID || B64Code(q[3]) == INVALID
  }

  /**
   One pass of the `decode` loop over a group of four symbols: `None` when a
   symbol is invalid or more than two are `=`; otherwise the `3 - padding`
   bytes written, `=` counting as code 0 wherever it stands.
   */
  function DecodeGroup(q: seq<u8>): (r: Option<seq<u8>>)
    requires |q| == 4
    ensures r.Some? <==> !Rejects(q) && Pads(q) <= 2
    ensures r.Some? ==> |r.value| == 3 - Pads(q)
  {
    if Rejects(q) then None
    else
      var padding := Pads(q);
      if padding > 2 then None
      else
        var w := Pack(B64Code(q[0]), B64Code(q[1]), B64Code(q[2]), B64Code(q[3]));
        Some([GetByte(w, 0), GetByte(w, 1), GetByte(w, 2)][..3 - padding])
  }

  /**
   `decode(asc_data, len, bin_data)`: the bytes written, or `None` where the
   source returns 0 for an error (a remainder shorter than 4, an invalid
   symbol, more than two `=` in a group).
   */
  function Decode(asc: seq<u8>): Option<seq<u8>>
    decreases |asc|
  {
    if |asc| == 0 then Some([])
    else if |asc| < 4 then None
    else
      match DecodeGroup(asc[..4])
      case None => None
      case Some(b) =>
        match Decode(asc[4..])
        case None => None
        case Some(rest) => Some(b + rest)
  }

  /** The value `decode` returns: the number of bytes written, 0 on error. */
  function DecodeLen(asc: seq<u8>): nat
  {
    if Decode(asc).Some? then |Decode(asc).value| else 0
  }

  /** The `j`-th group of four symbols. */
  function Group(asc: seq<u8>, j: nat): seq<u8>
    requires 4 * j + 4 <= |asc|
  {
    asc[4 * j..4 * j + 4]
  }

  /** What `decode` accepts: whole groups of valid symbols, none with more than two `=`. */
  predicate Decodable(asc: seq<u8>)
  {
    && |asc| % 4 == 0
    && (forall k :: 0 <= k < |asc| ==> B64Code(asc[k]) != INVALID)
    && (forall j :: 0 <= j < |asc| / 4 ==> Pads(Group(asc, j)) <= 2)
  }

  /** The groups after the first are the groups of the rest. */
  lemma GroupShift(asc: seq<u8>, j: nat)
    requires 4 * j + 8 <= |asc|
    ensures Group(asc[4..], j) == Group(asc, j + 1)
  {
  }

  /** Acceptance splits into the first group and the rest. */
  lemma DecodableCons(asc: seq<u8>)
    requires |asc| >= 4
    ensures Decodable(asc) <==> !Rejects(asc[..4]) && Pads(asc[..4]) <= 2 && Decodable(asc[4..])
  {
    var rest := asc[4..];
    assert Group(asc, 0) == asc[..4];
    if Decodable(asc) {
      forall k | 0 <= k < 4
        ensures B64Code(asc[..4][k]) != INVALID
      {
        assert asc[..4][k] == asc[k];
      }
      forall k | 0 <= k < |rest|
        ensures B64Code(rest[k]) != INVALID
      {
        assert rest[k] == asc[k + 4];
      }
      forall j | 0 <= j < |rest| / 4
        ensures Pads(Group(rest, j)) <= 2
      {
        GroupShift(asc, j);
      }
    }
    if !Rejects(asc[..4]) && Pads(asc[..4]) <= 2 && Decodable(rest) {
      forall k | 0 <= k < |asc|
        ensures B64Code(asc[k]) != INVALID
      {
        if k < 4 {
          assert asc[k] == asc[..4][k];
        } else {
          assert asc[k] == rest[k - 4];
        }
      }
      forall j | 0 <= j < |asc| / 4
        ensures Pads(Group(asc, j)) <= 2
      {
        if j > 0 {
          GroupShift(asc, j - 1);
        }
      }
    }
  }

  /**
   `decode` fails exactly in the three error cases: a length that is not a
   multiple of 4, a symbol outside the alphabet and `=`, a group with more
   than two `=`.
   */
  lemma {:induction false} DecodeDefined(asc: seq<u8>)
    ensures Decode(asc).Some? <==> Decodable(asc)
    decreases |asc|
  {
    if |asc| >= 4 {
      DecodeDefined(asc[4..]);
      DecodableCons(asc);
    }
  }

  /** On success, 3 bytes for every group less one for every `=` anywhere in the input. */
  lemma {:induction false} DecodeCount(asc: seq<u8>)
    requires Decode(asc).Some?
    ensures |Decode(asc).value| == 3 * (|asc| / 4) - Pads(asc)
    decreases |asc|
  {
    if |asc| >= 4 {
      var rest := asc[4..];
      DecodeCount(rest);
      PadsAppend(asc[..4], rest);
      assert asc[..4] + rest == asc;
      assert |asc| / 4 == 1 + |rest| / 4;
    }
  }

  /** The `=` of a concatenation are those of its parts. */
  lemma {:induction false} PadsAppend(a: seq<u8>, b: seq<u8>)
    ensures Pads(a + b) == Pads(a) + Pads(b)
    decreases |a|
  {
    if |a| == 0 {
      assert a + b == b;
    } else {
      PadsAppend(a[1..], b);
      assert (a + b)[1..] == a[1..] + b;
    }
  }

  /** The codes of bytes the last group of `encode` sets to zero are zero. */
  lemma ZeroCodes(buf: u32, b0: u8, b1: u8)
    ensures GetCode(Load(buf, b0, b1, 0), 3) == 0
    ensures GetCode(Load(buf, b0, 0, 0), 2) == 0 && GetCode(Load(buf, b0, 0, 0), 3) == 0
  {
  }

  /** A group without `=` has no padding. */
  lemma NoPads(q: seq<u8>)
    requires forall k :: 0 <= k < |q| ==> q[k] != PAD
    ensures Pads(q) == 0
    decreases |q|
  {
    if |q| > 0 {
      NoPads(q[1..]);
    }
  }

  /** A full group of `encode` decodes back to its three bytes. */
  lemma DecodeQuad(buf: u32, b0: u8, b1: u8, b2: u8)
    ensures DecodeGroup(Quad(Load(buf, b0, b1, b2))) == Some([b0, b1, b2])
  {
    var w := Load(buf, b0, b1, b2);
    var q := Quad(w);
    QuadSymbols(w);
    NoPads(q);
    SymbolOf(w, 0);
    SymbolOf(w, 1);
    SymbolOf(w, 2);
    SymbolOf(w, 3);
    assert !Rejects(q);
    var v := Pack(GetCode(w, 0), GetCode(w, 1), GetCode(w, 2), GetCode(w, 3));
    assert Pack(B64Code(q[0]), B64Code(q[1]), B64Code(q[2]), B64Code(q[3])) == v;
    Repack(buf, b0, b1, b2);
    assert [GetByte(v, 0), GetByte(v, 1), GetByte(v, 2)][..3] == [b0, b1, b2];
  }

  /** The last group of a 2-byte remainder, one `=`, decodes back to the two bytes. */
  lemma DecodeTwo(buf: u32, b0: u8, b1: u8)
    ensures var w := Load(buf, b0, b1, 0);
      DecodeGroup([B64Symbol(GetCode(w, 0)), B64Symbol(GetCode(w, 1)), B64Symbol(GetCode(w, 2)), PAD]) == Some([b0, b1])
  {
    var w := Load(buf, b0, b1, 0);
    var q := [B64Symbol(GetCode(w, 0)), B64Symbol(GetCode(w, 1)), B64Symbol(GetCode(w, 2)), PAD];
    SymbolOf(w, 0);
    SymbolOf(w, 1);
    SymbolOf(w, 2);
    ZeroCodes(buf, b0, b1);
    PadsOfGroup(q);
    assert Pads(q) == 1 && !Rejects(q);
    var v := Pack(GetCode(w, 0), GetCode(w, 1), GetCode(w, 2), GetCode(w, 3));
    assert Pack(B64Code(q[0]), B64Code(q[1]), B64Code(q[2]), B64Code(q[3])) == v;
    Repack(buf, b0, b1, 0);
    assert [GetByte(v, 0), GetByte(v, 1), GetByte(v, 2)][..2] == [b0, b1];
  }

  /** The last group of a 1-byte remainder, two `=`, decodes back to the byte. */
  lemma DecodeOne(buf: u32, b0: u8)
    ensures var w := Load(buf, b0, 0, 0);
      DecodeGroup([B64Symbol(GetCode(w, 0)), B64Symbol(GetCode(w, 1)), PAD, PAD]) == Some([b0])
  {
    var w := Load(buf, b0, 0, 0);
    var q := [B64Symbol(GetCode(w, 0)), B64Symbol(GetCode(w, 1)), PAD, PAD];
    SymbolOf(w, 0);
    SymbolOf(w, 1);
    ZeroCodes(buf, b0, 0);
    PadsOfGroup(q);
    assert Pads(q) == 2 && !Rejects(q);
    var v := Pack(GetCode(w, 0), GetCode(w, 1), GetCode(w, 2), GetCode(w, 3));
    assert Pack(B64Code(q[0]), B64Code(q[1]), B64Code(q[2]), B64Code(q[3])) == v;
    Repack(buf, b0, 0, 0);
    assert [GetByte(v, 0), GetByte(v, 1), GetByte(v, 2)][..1] == [b0];
  }

  /** A decoded first group followed by a decoded rest decodes to both. */
  lemma DecodeCons(asc: seq<u8>, b: seq<u8>, r: seq<u8>)
    requires |asc| >= 4 && DecodeGroup(asc[..4]) == Some(b) && Decode(asc[4..]) == Some(r)
    ensures Decode(asc) == Some(b + r)
  {
  }

  /** A sequence is its first three elements followed by the rest. */
  lemma Unfold3(s: seq<u8>)
    requires |s| >= 3
    ensures [s[0], s[1], s[2]] + s[3..] == s
  {
  }

  /** Decoding the encoding of a full group followed by more. */
  lemma DecodeEncodeStep(bin: seq<u8>, buf: u32)
    requires |bin| >= 3
    requires Decode(EncodeFrom(bin[3..], Load(buf, bin[0], bin[1], bin[2]))) == Some(bin[3..])
    ensures Decode(EncodeFrom(bin, buf)) == Some(bin)
  {
    var asc := EncodeFrom(bin, buf);
    var w := Load(buf, bin[0], bin[1], bin[2]);
    var rest := EncodeFrom(bin[3..], w);
    DecodeQuad(buf, bin[0], bin[1], bin[2]);
    assert asc[..4] == Quad(w) && asc[4..] == rest;
    DecodeCons(asc, [bin[0], bin[1], bin[2]], bin[3..]);
    Unfold3(bin);
  }

  /** Decoding the encoding of a last group of two bytes. */
  lemma DecodeEncodeTwo(bin: seq<u8>, buf: u32)
    requires |bin| == 2
    ensures Decode(EncodeFrom(bin, buf)) == Some(bin)
  {
    var w := Load(buf, bin[0], bin[1], 0);
    var q := [B64Symbol(GetCode(w, 0)), B64Symbol(GetCode(w, 1)), B64Symbol(GetCode(w, 2)), PAD];
    assert EncodeFrom(bin, buf) == q;
    DecodeTwo(buf, bin[0], bin[1]);
    assert q[..4] == q && q[4..] == [];
    DecodeCons(q, [bin[0], bin[1]], []);
    assert [bin[0], bin[1]] + [] == bin;
  }

  /** Decoding the encoding of a last group of one byte. */
  lemma DecodeEncodeOne(bin: seq<u8>, buf: u32)
    requires |bin| == 1
    ensures Decode(EncodeFrom(bin, buf)) == Some(bin)
  {
    var w := Load(buf, bin[0], 0, 0);
    var q := [B64Symbol(GetCode(w, 0)), B64Symbol(GetCode(w, 1)), PAD, PAD];
    assert EncodeFrom(bin, buf) == q;
    DecodeOne(buf, bin[0]);
    assert q[..4] == q && q[4..] == [];
    DecodeCons(q, [bin[0]], []);
    assert [bin[0]] + [] == bin;
  }

  /** `decode(encode(x))` writes `x` back and returns its length. */
  lemma {:induction false} DecodeEncode(bin: seq<u8>, buf: u32)
    ensures Decode(EncodeFrom(bin, buf)) == Some(bin)
    ensures DecodeLen(EncodeFrom(bin, buf)) == |bin|
    decreases |bin|
  {
    if |bin| >= 3 {
      DecodeEncode(bin[3..], Load(buf, bin[0], bin[1], bin[2]));
      DecodeEncodeStep(bin, buf);
    } else if |bin| == 2 {
      DecodeEncodeTwo(bin, buf);
    } else if |bin| == 1 {
      DecodeEncodeOne(bin, buf);
    }
  }

  /** A full step of `encode`: four symbols, then the rest encoded from the loaded buffer. */
  lemma EncodeStep(s: seq<u8>, b: u32)
    requires |s| >= 3
    ensures EncodeFrom(s, b) == Quad(Load(b, s[0], s[1], s[2])) + EncodeFrom(s[3..], Load(b, s[0], s[1], s[2]))
  {
  }

  /** The last step of `encode` for a remainder of one or two bytes. */
  lemma EncodeLast(s: seq<u8>, b: u32)
    requires 1 <= |s| <= 2
    ensures |s| == 2 ==> var w := Load(b, s[0], s[1], 0);
      EncodeFrom(s, b) == [B64Symbol(GetCode(w, 0)), B64Symbol(GetCode(w, 1)), B64Symbol(GetCode(w, 2)), PAD]
    ensures |s| == 1 ==> var w := Load(b, s[0], 0, 0);
      EncodeFrom(s, b) == [B64Symbol(GetCode(w, 0)), B64Symbol(GetCode(w, 1)), PAD, PAD]
  {
  }

  /** One full group keeps the loop invariant: the output so far plus what the rest encodes to. */
  lemma FullStep(asc: seq<u8>, s: seq<u8>, b: u32, whole: seq<u8>)
    requires |s| >= 3 && asc + EncodeFrom(s, b) == whole
    ensures var nb := Load(b, s[0], s[1], s[2]);
      (asc + Quad(nb)) + EncodeFrom(s[3..], nb) == whole
  {
    EncodeStep(s, b);
    var nb := Load(b, s[0], s[1], s[2]);
    assert asc + (Quad(nb) + EncodeFrom(s[3..], nb)) == (asc + Quad(nb)) + EncodeFrom(s[3..], nb);
  }

  /** A remainder of two bytes completes the output. */
  lemma TwoStep(asc: seq<u8>, s: seq<u8>, b: u32, whole: seq<u8>)
    requires |s| == 2 && asc + EncodeFrom(s, b) == whole
    ensures var w := Load(b, s[0], s[1], 0);
      asc + [B64Symbol(GetCode(w, 0)), B64Symbol(GetCode(w, 1)), B64Symbol(GetCode(w, 2)), PAD] == whole
  {
    EncodeLast(s, b);
  }

  /** A remainder of one byte completes the output. */
  lemma OneStep(asc: seq<u8>, s: seq<u8>, b: u32, whole: seq<u8>)
    requires |s| == 1 && asc + EncodeFrom(s, b) == whole
    ensures var w := Load(b, s[0], 0, 0);
      asc + [B64Symbol(GetCode(w, 0)), B64Symbol(GetCode(w, 1)), PAD, PAD] == whole
  {
    EncodeLast(s, b);
  }

  /**
   The `encode` loop as written: `rem` is the source's `len`, `out_len`
   counts the symbols written and the union keeps its value between steps.
   */
  method Encode(bin: seq<u8>, len: nat, buf: u32) returns (outLen: nat, asc: seq<u8>)
    requires len <= |bin|
    ensures asc == EncodeFrom(bin[..len], buf)
    ensures outLen == |asc| == MaxBase64EncodedLen(len)
  {
    ghost var whole := EncodeFrom(bin[..len], buf);
    var b := buf;
    var i := 0;
    var rem := len;
    outLen, asc := 0, [];
    assert bin[0..len] == bin[..len];
    while rem > 0
      invariant i + rem == len
      invariant outLen == |asc|
      invariant asc + EncodeFrom(bin[i..len], b) == whole
      decreases rem
    {
      ghost var s := bin[i..len];
      assert s[0] == bin[i];
      if rem >= 3 {
        FullStep(asc, s, b, whole);
        assert s[1] == bin[i + 1] && s[2] == bin[i + 2] && s[3..] == bin[i + 3..len];
        b := Load(b, bin[i], bin[i + 1], bin[i + 2]);
        asc := asc + Quad(b);
        outLen := outLen + 4;
        i, rem := i + 3, rem - 3;
      } else if rem == 2 {
        TwoStep(asc, s, b, whole);
        assert s[1] == bin[i + 1];
        var w := Load(b, bin[i], bin[i + 1], 0);
        asc := asc + [B64Symbol(GetCode(w, 0)), B64Symbol(GetCode(w, 1)), B64Symbol(GetCode(w, 2)), PAD];
        outLen := outLen + 4;
        i, rem := i + 2, 0;
        assert bin[i..len] == [];
      } else {
        OneStep(asc, s, b, whole);
        var w := Load(b, bin[i], 0, 0);
        asc := asc + [B64Symbol(GetCode(w, 0)), B64Symbol(GetCode(w, 1)), PAD, PAD];
        outLen := outLen + 4;
        i, rem := i + 1, 0;
        assert bin[i..len] == [];
      }
    }
    assert bin[i..len] == [];
    assert asc + [] == asc;
    EncodeLength(bin[..len], buf);
  }

  /** `is_data_binary(data, len)` as its declaration describes it (no body is part of this model): some byte is 0, 1 or 2. */
  predicate IsDataBinary(data: seq<u8>)
  {
    exists k :: 0 <= k < |data| && data[k] <= 2
  }

  /** Encoded data never looks binary, and the start tag is not a base64 symbol, so the tag cannot be confused with data. */
  lemma EncodedIsText(bin: seq<u8>, buf: u32)
    ensures !IsDataBinary(EncodeFrom(bin, buf))
    ensures IsDataBinary([ENCODED_DATA_START_TAG])
    ensures B64Code(ENCODED_DATA_START_TAG) == INVALID
  {
    EncodeShape(bin, buf);
    var asc := EncodeFrom(bin, buf);
    forall k | 0 <= k < |asc|
      ensures asc[k] > 2
    {
    }
    assert [ENCODED_DATA_START_TAG][0] <= 2;
  }

  /** A 0 from `decode` may mean an empty input or an error. */
  lemma ZeroAmbiguous()
    ensures Decode([]) == Some([]) && DecodeLen([]) == 0
    ensures Decode([0x21, 0x21, 0x21, 0x21]) == None && DecodeLen([0x21, 0x21, 0x21, 0x21]) == 0
  {
    var q: seq<u8> := [0x21, 0x21, 0x21, 0x21];
    assert q[..4] == q;
  }

  /** `=` inside a group counts as code 0 and as padding: "A=BC" decodes to two zero bytes. */
  lemma PadInside()
    ensures Decode([0x41, PAD, 0x42, 0x43]) == Some([0, 0])
  {
    var q: seq<u8> := [0x41, PAD, 0x42, 0x43];
    assert q[..4] == q && q[4..] == [];
    PadsOfGroup(q);
    assert B64Code(q[0]) == 0 && B64Code(q[1]) == 0 && B64Code(q[2]) == 1 && B64Code(q[3]) == 2;
    assert Pack(0, 0, 1, 2) == 0x42;
    assert GetByte(0x42, 0) == 0 && GetByte(0x42, 1) == 0;
    assert [GetByte(0x42, 0), GetByte(0x42, 1), GetByte(0x42, 2)][..2] == [0, 0];
    assert DecodeGroup(q) == Some([0, 0]);
    DecodeCons(q, [0, 0], []);
    assert [0 as u8, 0] + [] == [0, 0];
  }

  /** `asc` with the `=` at its end removed. */
  function StripPad(asc: seq<u8>): seq<u8>
    decreases |asc|
  {
    if |asc| > 0 && asc[|asc| - 1] == PAD then StripPad(asc[..|asc| - 1]) else asc
  }

  /** `n` copies of `=`. */
  function PadsOf(n: nat): (r: seq<u8>)
    ensures |r| == n && forall k :: 0 <= k < n ==> r[k] == PAD
  {
    seq(n, k => PAD)
  }

  /**
   `decode` as documented: padded input as before, and unpadded input (a
   last group of 2 or 3 symbols) decoded as if its `=` were present.
   */
  function DecodeUnpadded(asc: seq<u8>): Option<seq<u8>>
  {
    if |asc| % 4 == 1 then None else Decode(asc + PadsOf((4 - |asc| % 4) % 4))
  }

  /** Removing the `=` of a shaped encoding leaves all but its last `pad` symbols. */
  lemma {:induction false} StripShaped(asc: seq<u8>, pad: nat)
    requires Shaped(asc, pad) && pad <= |asc|
    ensures StripPad(asc) == asc[..|asc| - pad]
    decreases pad
  {
    var n := |asc|;
    if pad == 0 {
      assert asc[..n] == asc;
      if n > 0 {
        assert asc[n - 1] != PAD;
      }
    } else {
      assert asc[n - 1] == PAD;
      var init := asc[..n - 1];
      forall k | 0 <= k < |init|
        ensures init[k] == PAD <==> k + (pad - 1) >= |init|
        ensures init[k] != PAD ==> IsSymbol(init[k])
      {
        assert init[k] == asc[k];
      }
      StripShaped(init, pad - 1);
      assert init[..|init| - (pad - 1)] == asc[..n - pad];
    }
  }

  /** The stripped part of a shaped encoding is `=` only. */
  lemma RestorePads(asc: seq<u8>, pad: nat)
    requires Shaped(asc, pad) && pad <= |asc|
    ensures asc[..|asc| - pad] + PadsOf(pad) == asc
  {
    var r := asc[..|asc| - pad] + PadsOf(pad);
    forall k | 0 <= k < |asc|
      ensures r[k] == asc[k]
    {
      if k >= |asc| - pad {
        assert r[k] == PadsOf(pad)[k - (|asc| - pad)];
      }
    }
  }

  /** The encoded length less its padding leaves a last group of 4, 3 or 2 symbols. */
  lemma UnpaddedLength(n: nat)
    ensures Padding(n) <= 2 && Padding(n) <= MaxBase64EncodedLen(n)
    ensures MaxBase64EncodedLen(n) % 4 == 0
    ensures (MaxBase64EncodedLen(n) - Padding(n)) % 4 == (4 - Padding(n)) % 4
    ensures n % 3 == 0 <==> Padding(n) == 0
  {
    var q, r := n / 3, n % 3;
    var groups := (n + 2) / 3;
    assert MaxBase64EncodedLen(n) == 4 * groups;
    if r == 0 {
      assert groups == q && Padding(n) == 0;
    } else if r == 1 {
      assert groups == q + 1 && Padding(n) == 2;
    } else {
      assert groups == q + 1 && Padding(n) == 1;
    }
  }

  /** Stripping one or two `=` from whole groups leaves a length `decode` rejects. */
  lemma StrippedRejected(asc: seq<u8>, pad: nat)
    requires Shaped(asc, pad) && |asc| % 4 == 0 && 1 <= pad <= 2 && pad <= |asc|
    ensures Decode(StripPad(asc)) == None
  {
    StripShaped(asc, pad);
    assert |StripPad(asc)| % 4 != 0;
    DecodeDefined(StripPad(asc));
  }

  /** Of a shaped encoding, stripping `=` takes off its last `pad` symbols, and adding `pad` of them back restores it. */
  lemma StripRestores(asc: seq<u8>, pad: nat)
    requires Shaped(asc, pad) && pad <= |asc|
    ensures |StripPad(asc)| + pad == |asc|
    ensures StripPad(asc) + PadsOf(pad) == asc
  {
    StripShaped(asc, pad);
    RestorePads(asc, pad);
  }

  /** The documented decoder puts the stripped `=` back before decoding. */
  lemma StrippedRestored(asc: seq<u8>, short: seq<u8>, pad: nat)
    requires |asc| % 4 == 0 && pad <= 2
    requires |short| + pad == |asc| && short + PadsOf(pad) == asc
    ensures DecodeUnpadded(asc) == Decode(asc)
    ensures DecodeUnpadded(short) == Decode(asc)
  {
    ShortGroup(|asc|, 0, |asc|);
    var none := PadsOf(0);
    assert asc + none == asc;
    UnpaddedIs(asc, 0);
    ShortGroup(|asc|, pad, |short|);
    UnpaddedIs(short, pad);
  }

  /** `DecodeUnpadded` of an input missing `pad` symbols of its last group decodes it with `pad` `=` added. */
  lemma UnpaddedIs(asc: seq<u8>, pad: nat)
    requires |asc| % 4 != 1 && (4 - |asc| % 4) % 4 == pad
    ensures DecodeUnpadded(asc) == Decode(asc + PadsOf(pad))
  {
  }

  /** Whole groups less `pad` symbols need `pad` symbols to fill the last group again. */
  lemma ShortGroup(m: nat, pad: nat, n: nat)
    requires m % 4 == 0 && pad <= 2 && n + pad == m
    ensures (4 - n % 4) % 4 == pad && n % 4 != 1
  {
  }

  /** Unpadded input is rejected by `decode` as written, although the documentation accepts it. */
  lemma UnpaddedRejected(bin: seq<u8>, buf: u32)
    requires |bin| % 3 != 0
    ensures Decode(StripPad(EncodeFrom(bin, buf))) == None
  {
    EncodeShape(bin, buf);
    EncodeLength(bin, buf);
    UnpaddedLength(|bin|);
    StrippedRejected(EncodeFrom(bin, buf), Padding(|bin|));
  }

  /** The documented decoder reads back both the padded and the unpadded encoding. */
  lemma DecodeUnpaddedEncode(bin: seq<u8>, buf: u32)
    ensures DecodeUnpadded(EncodeFrom(bin, buf)) == Some(bin)
    ensures DecodeUnpadded(StripPad(EncodeFrom(bin, buf))) == Some(bin)
  {
    EncodeShape(bin, buf);
    EncodeLength(bin, buf);
    UnpaddedLength(|bin|);
    DecodeEncode(bin, buf);
    StripRestores(EncodeFrom(bin, buf), Padding(|bin|));
    StrippedRestored(EncodeFrom(bin, buf), StripPad(EncodeFrom(bin, buf)), Padding(|bin|));
  }
}
