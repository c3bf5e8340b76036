/**
 The build configuration of the adapter firmware, ble_uart_mx/mx_config.h.
 A configuration header first defines (or leaves undefined) a set of
 options; mx_config.h then rejects inconsistent combinations with `#error`,
 forces some options on, fills in defaults and derives the frame and buffer
 sizes and the VARIANT string the firmware reports.

 The options a header may set are the record `Flags`; `Errors` lists the
 `#error` directives that fire, in the order of the header, and `Resolve`
 gives the values mx_config.h defines. The preprocessor's integers are
 modelled as `int`; its `/` truncates toward zero.
 */
module MxConfig {
  import opened Options
  import opened Words
  import Checksum
  import FnvHash
  import XFrame
  import TestStream

  /** What a configuration header defines before mx_config.h is read. */
  datatype Flags = Flags(
    esp32: bool,                  // CONFIG_IDF_TARGET_ESP32
    maxPeers: Option<int>,        // MAX_PEERS
    passiveOnly: bool,            // PASSIVE_ONLY
    centralOnly: bool,            // CENTRAL_ONLY
    autoconnect: bool,            // AUTOCONNECT
    peerAddr: bool,               // PEER_ADDR
    peerAddr1: bool,              // PEER_ADDR1
    peerAddr2: bool,              // PEER_ADDR2
    peerAddr3: bool,              // PEER_ADDR3
    simpleLink: bool,             // SIMPLE_LINK
    statusReport: bool,           // STATUS_REPORT_INTERVAL
    noDebug: bool,                // NO_DEBUG
    hwUart: bool,                 // HW_UART
    uartBegin: Option<u8>,        // UART_BEGIN
    uartEnd: Option<u8>,          // UART_END
    maxSize: Option<int>,         // MAX_SIZE
    extFrames: bool,              // EXT_FRAMES
    maxChunks: int,               // MAX_CHUNKS, read only with EXT_FRAMES
    binaryDataSupport: bool,      // BINARY_DATA_SUPPORT
    maxBurst: int,                // MAX_BURST
    uartTimeout: Option<int>,     // UART_TIMEOUT
    wdtTimeout: Option<int>,      // WDT_TIMEOUT
    congestionDelay: Option<int>, // CONGESTION_DELAY
    rxQueue: Option<int>,         // RX_QUEUE
    txQueue: Option<int>,         // TX_QUEUE
    hidden: bool,                 // HIDDEN
    writable: bool,               // WRITABLE
    echo: bool,                   // ECHO
    tellUptime: bool)             // TELL_UPTIME

  /** The `#error` directives of mx_config.h, one constructor each. */
  datatype ConfigError =
    | TooManyPeers                // more peers than the BLE stack allows
    | PeerAddrWithPassive         // a peer address with PASSIVE_ONLY
    | CentralAndPassive           // CENTRAL_ONLY together with PASSIVE_ONLY
    | CentralNeedsPeerAddr        // CENTRAL_ONLY and AUTOCONNECT without PEER_ADDR
    | SimpleLinkNeedsRole         // SIMPLE_LINK with neither CENTRAL_ONLY nor PASSIVE_ONLY
    | SimpleLinkNeedsAutoconnect  // SIMPLE_LINK and CENTRAL_ONLY without AUTOCONNECT

  /** The values mx_config.h leaves defined. */
  datatype Config = Config(
    maxConns: int,
    maxPeers: int,
    autoconnect: bool,
    hidden: bool,
    noDebug: bool,
    statusReport: bool,
    uartBegin: Option<u8>,
    uartEnd: u8,
    maxSize: int,
    maxChunks: int,
    xhdrSize: int,
    chksumSize: int,
    maxChunk: int,
    maxFrame: int,
    binaryDataSupport: bool,
    rxBufferSize: int,
    txBufferSize: int,
    uartTimeout: int,
    wdtTimeout: int,
    congestionDelay: int,
    rxQueue: int,
    txQueue: int,
    variant: string)

  const DEFAULT_MAX_SIZE: int := 244
  const BUFFER_PAGE: int := 4096
  const BUFFER_SLACK: int := 2048

  /** The value of an option, or its default when the header leaves it undefined. */
  function OrDefault(o: Option<int>, d: int): (r: int)
    ensures o.None? ==> r == d
    ensures o.Some? ==> r == o.value
  {
    match o
    case None => d
    case Some(v) => v
  }

  /** The preprocessor's `/`, which truncates toward zero. */
  function CDiv(a: int, d: int): int
    requires d > 0
  {
    if a >= 0 then a / d else -((-a) / d)
  }

  /** MAX_CONNS: two connections on the original ESP32, four on the others. */
  function MaxConns(f: Flags): int
  {
    if f.esp32 then 2 else 4
  }

  /** AUTOCONNECT as seen from line 38 on: PASSIVE_ONLY defines it. */
  predicate Autoconnect(f: Flags)
  {
    f.autoconnect || f.passiveOnly
  }

  predicate AnyPeerAddr(f: Flags)
  {
    f.peerAddr || f.peerAddr1 || f.peerAddr2 || f.peerAddr3
  }

  /** The error an `#error` directive reports when its condition holds. */
  function Fires(cond: bool, e: ConfigError): (r: seq<ConfigError>)
    ensures |r| <= 1
  {
    if cond then [e] else []
  }

  /** The `#error` directives that fire, in the order mx_config.h states them. */
  function Errors(f: Flags): (errs: seq<ConfigError>)
    ensures |errs| <= 6
  {
    Fires(f.maxPeers.Some? && f.maxPeers.value > MaxConns(f), TooManyPeers)
    + Fires(f.passiveOnly && AnyPeerAddr(f), PeerAddrWithPassive)
    + Fires(f.centralOnly && f.passiveOnly, CentralAndPassive)
    + Fires(f.centralOnly && Autoconnect(f) && !f.peerAddr, CentralNeedsPeerAddr)
    + Fires(f.simpleLink && !f.centralOnly && !f.passiveOnly, SimpleLinkNeedsRole)
    + Fires(f.simpleLink && f.centralOnly && !Autoconnect(f), SimpleLinkNeedsAutoconnect)
  }

  /**
   The rules a consistent configuration follows, each stated on the options
   the header itself defines.
   */
  predicate Consistent(f: Flags)
  {
    && (f.maxPeers.Some? ==> f.maxPeers.value <= (if f.esp32 then 2 else 4))
    && !(f.centralOnly && f.passiveOnly)
    && (f.passiveOnly ==> !f.peerAddr && !f.peerAddr1 && !f.peerAddr2 && !f.peerAddr3)
    && (f.centralOnly && f.autoconnect ==> f.peerAddr)
    && (f.simpleLink ==> f.centralOnly || f.passiveOnly)
    && (f.simpleLink && f.centralOnly ==> f.autoconnect)
  }

  /** A configuration compiles exactly when it follows every rule. */
  lemma AcceptedIff(f: Flags)
    ensures Errors(f) == [] <==> Consistent(f)
  {
  }

  /** The condition under which mx_config.h reports each error. */
  predicate Rule(f: Flags, e: ConfigError)
  {
    match e
    case TooManyPeers => f.maxPeers.Some? && f.maxPeers.value > MaxConns(f)
    case PeerAddrWithPassive => f.passiveOnly && AnyPeerAddr(f)
    case CentralAndPassive => f.centralOnly && f.passiveOnly
    case CentralNeedsPeerAddr => f.centralOnly && Autoconnect(f) && !f.peerAddr
    case SimpleLinkNeedsRole => f.simpleLink && !f.centralOnly && !f.passiveOnly
    case SimpleLinkNeedsAutoconnect => f.simpleLink && f.centralOnly && !Autoconnect(f)
  }

  /** An error is listed exactly when its condition holds. */
  lemma ErrorsListed(f: Flags, e: ConfigError)
    ensures e in Errors(f) <==> Rule(f, e)
  {
    var p1 := Fires(f.maxPeers.Some? && f.maxPeers.value > MaxConns(f), TooManyPeers);
    var p2 := Fires(f.passiveOnly && AnyPeerAddr(f), PeerAddrWithPassive);
    var p3 := Fires(f.centralOnly && f.passiveOnly, CentralAndPassive);
    var p4 := Fires(f.centralOnly && Autoconnect(f) && !f.peerAddr, CentralNeedsPeerAddr);
    var p5 := Fires(f.simpleLink && !f.centralOnly && !f.passiveOnly, SimpleLinkNeedsRole);
    var p6 := Fires(f.simpleLink && f.centralOnly && !Autoconnect(f), SimpleLinkNeedsAutoconnect);
    InSix(e, p1, p2, p3, p4, p5, p6);
  }

  /** An element is in a six-part concatenation exactly when it is in one of its parts. */
  lemma InSix<T>(x: T, p1: seq<T>, p2: seq<T>, p3: seq<T>, p4: seq<T>, p5: seq<T>, p6: seq<T>)
    ensures x in p1 + p2 + p3 + p4 + p5 + p6 <==>
      x in p1 || x in p2 || x in p3 || x in p4 || x in p5 || x in p6
  {
  }

  /**
   Defining both CENTRAL_ONLY and PASSIVE_ONLY without PEER_ADDR fires a
   second error as well: PASSIVE_ONLY has already defined AUTOCONNECT when
   the PEER_ADDR rule is read.
   */
  lemma BothRolesTwoErrors(f: Flags)
    requires f.centralOnly && f.passiveOnly && !AnyPeerAddr(f) && f.maxPeers.None?
    ensures Errors(f) == [CentralAndPassive, CentralNeedsPeerAddr]
  {
  }

  /**
   The peer limit is checked before SIMPLE_LINK sets MAX_PEERS to 1, so a
   point-to-point link whose header asks for more peers than the stack has is
   rejected although it would use only one.
   */
  lemma SimpleLinkPeersChecked(f: Flags)
    requires f.simpleLink && f.passiveOnly && !AnyPeerAddr(f) && !f.centralOnly
    requires f.maxPeers == Some(MaxConns(f) + 1)
    ensures Errors(f) == [TooManyPeers]
    ensures Resolve(f).maxPeers == 1
  {
  }

  /** `_XDATA`: X for extended frames, else B for binary data, else T for text. */
  function XData(extFrames: bool, binary: bool): (s: string)
    ensures |s| == 1
  {
    if extFrames then "X" else if binary then "B" else "T"
  }

  /** `_MODE`: P for passive only, else A for autoconnect, else nothing. */
  function Mode(passiveOnly: bool, autoconnect: bool): (s: string)
    ensures |s| <= 1
  {
    if passiveOnly then "P" else if autoconnect then "A" else ""
  }

  /** `_ADVERT`: C for central only, else H for hidden, else nothing. */
  function Advert(centralOnly: bool, hidden: bool): (s: string)
    ensures |s| <= 1
  {
    if centralOnly then "C" else if hidden then "H" else ""
  }

  /** `_RDONLY`, `_ECHO`, `_UTIME`: one letter when the option is in force, else nothing. */
  function Letter(on: bool, c: char): (s: string)
    ensures |s| <= 1
  {
    if on then [c] else ""
  }

  /** UART_RX_BUFFER_SZ for a given largest frame and burst length. */
  function RxBufferSize(maxFrame: int, maxBurst: int): int
  {
    (1 + CDiv(maxFrame * maxBurst + BUFFER_SLACK, BUFFER_PAGE)) * BUFFER_PAGE
  }

  /** VARIANT: the six parts, each decided from the options in force. */
  function Variant(f: Flags): string
  {
    XData(f.extFrames, f.binaryDataSupport || f.extFrames) + Mode(f.passiveOnly, Autoconnect(f))
      + Advert(f.centralOnly, f.hidden || f.centralOnly) + Letter(!f.writable, 'R')
      + Letter(f.echo, 'e') + Letter(f.tellUptime, 'u')
  }

  /** The values mx_config.h defines from the header's options. */
  function Resolve(f: Flags): (c: Config)
  {
    var maxConns := MaxConns(f);
    var maxPeers := if f.simpleLink then 1 else OrDefault(f.maxPeers, maxConns);
    var autoconnect := Autoconnect(f);
    var hidden := f.hidden || f.centralOnly;
    var uartBegin := if f.hwUart && f.uartEnd.None? then Some(0x01) else f.uartBegin;
    var uartEnd := if f.uartEnd.Some? then f.uartEnd.value else if f.hwUart then 0x00 else 0x0A;
    var maxSize := OrDefault(f.maxSize, DEFAULT_MAX_SIZE);
    var maxChunks := if f.extFrames then f.maxChunks else 1;
    var xhdrSize := if f.extFrames then 1 else 0;
    var chksumSize := if f.extFrames then 3 else 0;
    var maxChunk := if f.extFrames then maxSize - xhdrSize - chksumSize else maxSize;
    var maxFrame := if f.extFrames then maxChunk * maxChunks else maxChunk;
    var binary := f.binaryDataSupport || f.extFrames;
    var rx := RxBufferSize(maxFrame, f.maxBurst);
    var variant := Variant(f);
    Config(maxConns, maxPeers, autoconnect, hidden, f.noDebug || f.simpleLink,
      f.statusReport && !f.simpleLink, uartBegin, uartEnd, maxSize, maxChunks,
      xhdrSize, chksumSize, maxChunk, maxFrame, binary, rx, 4 * rx,
      OrDefault(f.uartTimeout, 10), OrDefault(f.wdtTimeout, 20000),
      OrDefault(f.congestionDelay, 10), OrDefault(f.rxQueue, 32),
      OrDefault(f.txQueue, 4), variant)
  }

  /** An accepted configuration never uses more peers than the BLE stack has connections. */
  lemma PeersWithinStack(f: Flags)
    requires Errors(f) == []
    ensures Resolve(f).maxPeers <= Resolve(f).maxConns
    ensures Resolve(f).maxConns == (if f.esp32 then 2 else 4)
    ensures f.simpleLink ==> Resolve(f).maxPeers == 1
    ensures !f.simpleLink && f.maxPeers.None? ==> Resolve(f).maxPeers == Resolve(f).maxConns
  {
  }

  /** The options mx_config.h turns on whatever the header says. */
  lemma ForcedOptions(f: Flags)
    ensures f.passiveOnly ==> Resolve(f).autoconnect
    ensures f.centralOnly ==> Resolve(f).hidden
    ensures f.simpleLink ==> Resolve(f).noDebug && !Resolve(f).statusReport
    ensures f.extFrames ==> Resolve(f).binaryDataSupport
    ensures Resolve(f).autoconnect <==> f.autoconnect || f.passiveOnly
    ensures Resolve(f).hidden <==> f.hidden || f.centralOnly
  {
  }

  /**
   The frame sizes. Extended frames spend one header byte and a three-byte
   checksum trailer of every characteristic write, and a frame is up to
   MAX_CHUNKS chunks; a plain frame is one write.
   */
  lemma FrameSizes(f: Flags)
    ensures var c := Resolve(f);
      c.maxSize == (if f.maxSize.Some? then f.maxSize.value else 244)
    ensures var c := Resolve(f);
      f.extFrames ==>
        c.maxChunk == c.maxSize - 4 && c.maxFrame == c.maxChunk * f.maxChunks && c.maxChunks == f.maxChunks
    ensures var c := Resolve(f);
      !f.extFrames ==>
        c.maxChunks == 1 && c.maxFrame == c.maxChunk == c.maxSize && c.xhdrSize == 0 && c.chksumSize == 0
    ensures var c := Resolve(f);
      c.xhdrSize + c.maxChunk + c.chksumSize == c.maxSize
  {
  }

  /**
   With extended frames a chunk of MAX_CHUNK data bytes, the one-byte
   xframe header in front and the checksum trailer behind, fills exactly one
   characteristic write of MAX_SIZE bytes.
   */
  lemma ChunkFillsWrite(f: Flags, data: seq<u8>, sn: u8, binary: u8, first: u8, last: u8, ini: u32)
    requires f.extFrames && |data| == Resolve(f).maxChunk
    ensures |[XFrame.MkXframeHdr(sn, binary, first, last)] + Checksum.Sealed(data, ini)| == Resolve(f).maxSize
    ensures Resolve(f).xhdrSize == |[XFrame.MkXframeHdr(sn, binary, first, last)]|
    ensures Resolve(f).chksumSize == |Checksum.Trailer(FnvHash.Hash(data, ini))|
  {
  }

  /**
   UART_RX_BUFFER_SZ is a multiple of 4096 strictly above
   MAX_FRAME * MAX_BURST + 2048, the smallest such positive one when that
   sum is not negative, and the transmit buffer is four times it.
   */
  lemma {:induction false} BufferSizes(f: Flags)
    ensures var c := Resolve(f);
      c.rxBufferSize % 4096 == 0 && c.txBufferSize == 4 * c.rxBufferSize
    ensures var c := Resolve(f);
      c.rxBufferSize > c.maxFrame * f.maxBurst + 2048
    ensures var c := Resolve(f);
      c.maxFrame * f.maxBurst + 2048 >= 0 ==>
        4096 <= c.rxBufferSize && c.rxBufferSize - 4096 <= c.maxFrame * f.maxBurst + 2048
  {
    var c := Resolve(f);
    RxBufferBounds(c.maxFrame * f.maxBurst + BUFFER_SLACK, c.rxBufferSize);
  }

  lemma RxBufferBounds(n: int, rx: int)
    requires rx == (1 + CDiv(n, BUFFER_PAGE)) * BUFFER_PAGE
    ensures rx % 4096 == 0
    ensures n < rx
    ensures n >= 0 ==> 4096 <= rx && rx - 4096 <= n
  {
    var q := CDiv(n, BUFFER_PAGE);
    if n >= 0 {
      assert q == n / 4096;
      assert q * 4096 <= n < q * 4096 + 4096;
    } else {
      assert q == -((-n) / 4096);
      assert (-n) / 4096 * 4096 <= -n;
    }
    assert rx == (q + 1) * 4096;
  }

  /**
   The message delimiters on the host link. On the hardware UART they default
   to 0x01 before and 0x00 after each message; on the USB port a message
   ends with a newline and has no start byte. A header that sets UART_END
   keeps its own delimiters.
   */
  lemma Delimiters(f: Flags)
    ensures f.hwUart && f.uartEnd.None? ==>
      Resolve(f).uartBegin == Some(0x01) && Resolve(f).uartEnd == 0x00
    ensures !f.hwUart && f.uartEnd.None? && f.uartBegin.None? ==>
      Resolve(f).uartBegin == None && Resolve(f).uartEnd == 0x0A
    ensures f.uartEnd.Some? ==>
      Resolve(f).uartBegin == f.uartBegin && Resolve(f).uartEnd == f.uartEnd.value
  {
  }

  /** The defaults of the timing and queue options. */
  lemma Defaults(f: Flags)
    requires f.uartTimeout.None? && f.wdtTimeout.None? && f.congestionDelay.None?
    requires f.rxQueue.None? && f.txQueue.None?
    ensures var c := Resolve(f);
      c.uartTimeout == 10 && c.wdtTimeout == 20000 && c.congestionDelay == 10
        && c.rxQueue == 32 && c.txQueue == 4
  {
  }

  /**
   The VARIANT string is read back letter by letter: its first letter tells
   the frame kind by priority, and every later letter appears exactly when its
   option is in force, P taking precedence over A and C over H.
   */
  lemma {:induction false} VariantLetters(f: Flags)
    ensures var v := Resolve(f).variant;
      1 <= |v| <= 6
    ensures var v := Resolve(f).variant;
      (v[0] == 'X' <==> f.extFrames)
      && (v[0] == 'B' <==> !f.extFrames && f.binaryDataSupport)
      && (v[0] == 'T' <==> !f.extFrames && !f.binaryDataSupport)
    ensures var v := Resolve(f).variant;
      ('P' in v <==> f.passiveOnly) && ('A' in v <==> !f.passiveOnly && f.autoconnect)
    ensures var v := Resolve(f).variant;
      ('C' in v <==> f.centralOnly) && ('H' in v <==> !f.centralOnly && f.hidden)
    ensures var v := Resolve(f).variant;
      ('R' in v <==> !f.writable) && ('e' in v <==> f.echo) && ('u' in v <==> f.tellUptime)
  {
    var v := Variant(f);
    assert Resolve(f).variant == v;
    VariantReads(f, v);
  }

  lemma VariantReads(f: Flags, v: string)
    requires v == Variant(f)
    ensures 1 <= |v| <= 6
    ensures (v[0] == 'X' <==> f.extFrames)
      && (v[0] == 'B' <==> !f.extFrames && f.binaryDataSupport)
      && (v[0] == 'T' <==> !f.extFrames && !f.binaryDataSupport)
    ensures ('P' in v <==> f.passiveOnly) && ('A' in v <==> !f.passiveOnly && f.autoconnect)
    ensures ('C' in v <==> f.centralOnly) && ('H' in v <==> !f.centralOnly && f.hidden)
    ensures ('R' in v <==> !f.writable) && ('e' in v <==> f.echo) && ('u' in v <==> f.tellUptime)
  {
    var x := XData(f.extFrames, f.binaryDataSupport || f.extFrames);
    var m := Mode(f.passiveOnly, Autoconnect(f));
    var a := Advert(f.centralOnly, f.hidden || f.centralOnly);
    var r := Letter(!f.writable, 'R');
    var e := Letter(f.echo, 'e');
    var u := Letter(f.tellUptime, 'u');
    XDataReads(f.extFrames, f.binaryDataSupport || f.extFrames);
    ModeReads(f.passiveOnly, Autoconnect(f));
    AdvertReads(f.centralOnly, f.hidden || f.centralOnly);
    LetterReads(!f.writable, 'R');
    LetterReads(f.echo, 'e');
    LetterReads(f.tellUptime, 'u');
    SixParts(v, x, m, a, r, e, u);
  }

  /** What the letters of a six-part VARIANT say, given what each part says. */
  lemma SixParts(v: string, x: string, m: string, a: string, r: string, e: string, u: string)
    requires v == x + m + a + r + e + u && |x| == 1
    requires |m| <= 1 && |a| <= 1 && |r| <= 1 && |e| <= 1 && |u| <= 1
    requires forall ch :: ch in x <==> ch == x[0]
    requires x[0] == 'X' || x[0] == 'B' || x[0] == 'T'
    requires forall ch :: ch in m ==> ch == 'P' || ch == 'A'
    requires forall ch :: ch in a ==> ch == 'C' || ch == 'H'
    requires forall ch :: ch in r ==> ch == 'R'
    requires forall ch :: ch in e ==> ch == 'e'
    requires forall ch :: ch in u ==> ch == 'u'
    ensures 1 <= |v| <= 6 && v[0] == x[0]
    ensures ('P' in v <==> 'P' in m) && ('A' in v <==> 'A' in m)
    ensures ('C' in v <==> 'C' in a) && ('H' in v <==> 'H' in a)
    ensures ('R' in v <==> 'R' in r) && ('e' in v <==> 'e' in e) && ('u' in v <==> 'u' in u)
  {
    InConcat(x, m, a, r, e, u);
  }

  lemma XDataReads(extFrames: bool, binary: bool)
    ensures var x := XData(extFrames, binary);
      (x[0] == 'X' <==> extFrames) && (x[0] == 'B' <==> !extFrames && binary)
      && (x[0] == 'T' <==> !extFrames && !binary)
    ensures forall ch :: ch in XData(extFrames, binary) <==> ch == XData(extFrames, binary)[0]
  {
  }

  lemma ModeReads(passiveOnly: bool, autoconnect: bool)
    ensures forall ch :: ch in Mode(passiveOnly, autoconnect) <==>
      (ch == 'P' && passiveOnly) || (ch == 'A' && !passiveOnly && autoconnect)
  {
  }

  lemma AdvertReads(centralOnly: bool, hidden: bool)
    ensures forall ch :: ch in Advert(centralOnly, hidden) <==>
      (ch == 'C' && centralOnly) || (ch == 'H' && !centralOnly && hidden)
  {
  }

  lemma LetterReads(on: bool, c: char)
    ensures forall ch :: ch in Letter(on, c) <==> on && ch == c
  {
  }

  /** An element is in a six-part concatenation exactly when it is in one of its parts. */
  lemma InConcat<T>(x: seq<T>, m: seq<T>, a: seq<T>, r: seq<T>, e: seq<T>, u: seq<T>)
    ensures forall ch :: ch in x + m + a + r + e + u <==>
      ch in x || ch in m || ch in a || ch in r || ch in e || ch in u
  {
  }

  /** Two configurations that report the same VARIANT agree on every option it shows. */
  lemma VariantDetermines(f: Flags, g: Flags)
    requires Resolve(f).variant == Resolve(g).variant
    ensures f.extFrames == g.extFrames
    ensures !f.extFrames ==> f.binaryDataSupport == g.binaryDataSupport
    ensures f.passiveOnly == g.passiveOnly && f.centralOnly == g.centralOnly
    ensures !f.passiveOnly ==> f.autoconnect == g.autoconnect
    ensures !f.centralOnly ==> f.hidden == g.hidden
    ensures f.writable == g.writable && f.echo == g.echo && f.tellUptime == g.tellUptime
  {
    VariantLetters(f);
    VariantLetters(g);
  }

  /**
   The options ble_uart_mx/echo_master_config.h sets: a host-controlled
   adapter on the USB port with extended frames of nine 244-byte writes,
   autoconnecting, writable and echoing.
   */
  function EchoMaster(esp32: bool, maxBurst: int): (f: Flags)
    ensures f.extFrames && f.maxChunks == 9
  {
    Flags(esp32, None, false, false, true, false, false, true, false,
      false, true, false, false, None, Some(0x0A), Some(244), true, 9, false,
      maxBurst, None, Some(20000), None, Some(64), None, false, true, true, false)
  }

  /**
   The echo master configuration is accepted, carries frames of 240 * 9 =
   2160 bytes, exactly the largest message the long echo test sends, and
   reports the variant "XAe".
   */
  lemma EchoMasterResolves(esp32: bool, maxBurst: int)
    ensures Errors(EchoMaster(esp32, maxBurst)) == []
    ensures Resolve(EchoMaster(esp32, maxBurst)).maxChunk == 240
    ensures Resolve(EchoMaster(esp32, maxBurst)).maxFrame == 2160 == TestStream.MAX_SIZE
    ensures Resolve(EchoMaster(esp32, maxBurst)).variant == "XAe"
    ensures Resolve(EchoMaster(esp32, maxBurst)).uartEnd == 0x0A
  {
    var f := EchoMaster(esp32, maxBurst);
    var c := Resolve(f);
    assert c.variant == "X" + "A" + "" + "" + "e" + "";
  }
}
