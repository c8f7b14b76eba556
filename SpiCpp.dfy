/** The interrupt-driven SPI driver of src/AVR_SPI_with_interrupts.cpp, the
    older variant whose buffers hold `char`, which keeps no byte count and
    which sizes its loops with strlen. Buffer contents are modelled as the
    bytes' bit patterns; the sign of a `char` matters only in hexArrayToHex. */
module SpiCpp {
  import opened Bytes
  import opened Hex
  import opened Bus

  // ---------------------------------------------------------------------
  // Receive framing: the driver's globals and what each step does to them

  /** SPI_data, SPI_buffer, dataIndex and dataReceived. */
  datatype Globals = Globals(
    data: seq<Byte>,
    buffer: seq<Byte>,
    dataIndex: nat,
    dataReceived: bool)

  /** The globals' static initial values (static storage starts zeroed). */
  function Initial(): (g: Globals)
  {
    Globals(Zeros(DATA_LENGTH), Zeros(DATA_LENGTH), 0, false)
  }

  predicate Idle(g: Globals)
  {
    g.dataIndex == 0 && !g.dataReceived
  }

  /** SPI_data holds a C string followed only by zeros. */
  predicate ZeroPadded(s: seq<Byte>)
  {
    NUL in s && forall i :: Strlen(s) <= i < |s| ==> s[i] == NUL
  }

  /** One firing of ISR(SPI_STC_vect) on received byte b: b is stored at the
      cursor and the cursor advances; a terminator then raises the flag and
      rewinds the cursor. */
  function AfterIsr(g: Globals, b: Byte): (h: Globals)
    requires g.dataIndex < |g.buffer|
    ensures h.buffer == g.buffer[g.dataIndex := b] && h.data == g.data
    ensures h.dataReceived == (g.dataReceived || b == END)
    ensures h.dataIndex == if b == END then 0 else g.dataIndex + 1
  {
    var stored := g.buffer[g.dataIndex := b];
    if b == END then g.(buffer := stored, dataReceived := true, dataIndex := 0)
    else g.(buffer := stored, dataIndex := g.dataIndex + 1)
  }

  /** The ISR firing once for each byte of bs, with no foreground call in
      between. The requirement bounds the cursor over the whole run, which
      is more than each firing needs (a terminator rewinds the cursor); a
      run spanning several frames is given as several calls. */
  function Feed(g: Globals, bs: seq<Byte>): (h: Globals)
    requires g.dataIndex + |bs| <= |g.buffer|
    ensures |h.buffer| == |g.buffer| && h.data == g.data
    ensures h.dataIndex <= g.dataIndex + |bs|
    decreases |bs|
  {
    if bs == [] then g else AfterIsr(Feed(g, bs[..|bs| - 1]), bs[|bs| - 1])
  }

  /** What SPI_readAll needs to stay inside its arrays: a NUL in SPI_data for
      flushBuffer's strlen, and a terminator in SPI_buffer to stop the copy
      loop when the flag is up. */
  predicate CanReadAll(g: Globals)
  {
    |g.data| == |g.buffer| && NUL in g.data && (g.dataReceived ==> END in g.buffer)
  }

  /** SPI_readAll: with the flag down nothing happens and false is returned.
      With the flag up, SPI_data is flushed up to its strlen (held in a
      uint8_t), the bytes of SPI_buffer before its first terminator are
      copied over the front of SPI_data, all of SPI_buffer is zeroed, the
      flag is reset and true is returned. */
  function AfterReadAll(g: Globals): (result: (bool, Globals))
    requires CanReadAll(g)
    ensures result.0 == g.dataReceived
    ensures !g.dataReceived ==> result.1 == g
    ensures |result.1.data| == |g.data| && |result.1.buffer| == |g.buffer|
    ensures !result.1.dataReceived && result.1.dataIndex == g.dataIndex
  {
    if !g.dataReceived then (false, g)
    else
      var k := IndexOf(g.buffer, END);
      var flushed := Zeroed(g.data, Strlen(g.data) % 0x100);
      (true, g.(data := g.buffer[..k] + flushed[k..],
                buffer := Zeros(|g.buffer|),
                dataReceived := false))
  }

  // ---------------------------------------------------------------------
  // Properties of the framer

  /** What a successful SPI_readAll changes, with k the first terminator
      in SPI_buffer and m the strlen of SPI_data kept in a uint8_t: SPI_data
      gets SPI_buffer[0..k), zeros on [k, m) and keeps the rest; all of
      SPI_buffer is zero. */
  lemma ReadAllFrame(g: Globals)
    requires CanReadAll(g) && g.dataReceived
    ensures var k, m, h := IndexOf(g.buffer, END), Strlen(g.data) % 0x100, AfterReadAll(g).1;
      AfterReadAll(g).0 &&
      h.data[..k] == g.buffer[..k] &&
      (forall i :: k <= i < |g.data| ==> h.data[i] == if i < m then NUL else g.data[i]) &&
      (forall i :: 0 <= i < |g.buffer| ==> h.buffer[i] == NUL) &&
      !h.dataReceived && h.dataIndex == g.dataIndex
  {
  }

  /** Payload bytes (no terminator) land one after another at the cursor,
      which advances by their number; nothing else moves. */
  lemma {:induction false} FeedPayload(g: Globals, msg: seq<Byte>)
    requires g.dataIndex + |msg| <= |g.buffer|
    requires END !in msg
    ensures Feed(g, msg) == g.(
      buffer := g.buffer[..g.dataIndex] + msg + g.buffer[g.dataIndex + |msg|..],
      dataIndex := g.dataIndex + |msg|)
  {
    if msg == [] {
      assert g.buffer[..g.dataIndex] + msg + g.buffer[g.dataIndex..] == g.buffer;
    } else {
      var init, last := msg[..|msg| - 1], msg[|msg| - 1];
      assert msg == init + [last];
      FeedPayload(g, init);
      var h := Feed(g, init);
      var i := g.dataIndex + |init|;
      assert Feed(g, msg) == AfterIsr(h, last);
      assert h.buffer[i := last] == g.buffer[..g.dataIndex] + msg + g.buffer[i + 1..] by {
        var pre, rest := g.buffer[..g.dataIndex] + init, g.buffer[i..];
        assert h.buffer == pre + rest;
        SpliceAt(pre, rest, last);
        assert pre + [last] == g.buffer[..g.dataIndex] + msg;
        assert rest[1..] == g.buffer[i + 1..];
      }
    }
  }

  /** A message of fewer than DATA_LENGTH bytes without a terminator,
      followed by the terminator and sent from an idle state, lands at the
      front of SPI_buffer, raises the flag once and rewinds the cursor. */
  lemma FrameMessage(g: Globals, msg: seq<Byte>)
    requires Idle(g)
    requires END !in msg && |msg| < |g.buffer|
    ensures Feed(g, msg + [END]) == g.(
      buffer := msg + [END] + g.buffer[|msg| + 1..],
      dataReceived := true)
  {
    var bs := msg + [END];
    assert bs[..|bs| - 1] == msg;
    var h := Feed(g, msg);
    FeedPayload(g, msg);
    var rest := g.buffer[|msg|..];
    assert g.buffer[..0] + msg + rest == msg + rest;
    assert h.buffer == msg + rest && h.dataIndex == |msg|;
    assert Feed(g, bs) == AfterIsr(h, END);
    SpliceAt(msg, rest, END);
    assert rest[1..] == g.buffer[|msg| + 1..];
  }

  /** A zero-padded SPI_data is all zeros once flushBuffer has cleared it up
      to its strlen. */
  lemma FlushPadded(s: seq<Byte>)
    requires ZeroPadded(s) && |s| <= 0x100
    ensures Zeroed(s, Strlen(s) % 0x100) == Zeros(|s|)
  {
    var n := Strlen(s);
    assert n % 0x100 == n;
    ZeroedSplit(s, n);
    assert s[n..] == Zeros(|s| - n);
    assert Zeros(n) + Zeros(|s| - n) == Zeros(|s|);
  }

  /** The copy stops before the terminator, which lies inside SPI_buffer, so
      the last byte of SPI_data is only ever flushed, never copied into: a
      trailing NUL there survives every SPI_readAll, and strlen on SPI_data
      stays in bounds for the next call. */
  lemma ReadAllKeepsLastNul(g: Globals)
    requires CanReadAll(g) && |g.data| > 0 && g.data[|g.data| - 1] == NUL
    ensures var h := AfterReadAll(g).1;
      |h.data| == |g.data| && h.data[|h.data| - 1] == NUL && NUL in h.data &&
      CanReadAll(h)
  {
    if g.dataReceived {
      var k := IndexOf(g.buffer, END);
      var h := AfterReadAll(g).1;
      assert k <= |g.data| - 1;
      assert h.data[|h.data| - 1] == Zeroed(g.data, Strlen(g.data) % 0x100)[|g.data| - 1];
    }
  }

  /** If SPI_data is zero from its strlen on and the new message has no NUL
      byte, a successful SPI_readAll leaves exactly the new message in
      SPI_data, followed by zeros (so the padding is kept for the next
      call), and every byte of SPI_buffer is 0. */
  lemma ReadAllPadded(g: Globals)
    requires CanReadAll(g) && g.dataReceived
    requires ZeroPadded(g.data) && |g.data| <= 0x100
    requires NUL !in g.buffer[..IndexOf(g.buffer, END)]
    ensures var k, h := IndexOf(g.buffer, END), AfterReadAll(g).1;
      AfterReadAll(g).0 &&
      h.data == g.buffer[..k] + Zeros(|g.data| - k) &&
      ZeroPadded(h.data) && CString(h.data) == g.buffer[..k] &&
      h.buffer == Zeros(|g.buffer|) &&
      Idle(h) == (g.dataIndex == 0)
  {
    var k := IndexOf(g.buffer, END);
    var pad := |g.data| - k;
    FlushPadded(g.data);
    var h := AfterReadAll(g).1;
    assert h.data == g.buffer[..k] + Zeros(pad) by {
      assert Zeros(|g.data|)[k..] == Zeros(pad);
    }
    CStringOfPadded(g.buffer[..k], pad);
    assert ZeroPadded(h.data);
  }

  /** SPI_readAll right after such a message, with zero-padded SPI_data:
      it returns true, leaves exactly the message, zero-padded, in SPI_data
      and clears SPI_buffer. */
  lemma ReadFramed(g: Globals, msg: seq<Byte>)
    requires Idle(g) && |g.data| == |g.buffer| <= 0x100 && ZeroPadded(g.data)
    requires END !in msg && NUL !in msg && |msg| < |g.buffer|
    ensures var f := g.(buffer := msg + [END] + g.buffer[|msg| + 1..], dataReceived := true);
      CanReadAll(f) &&
      AfterReadAll(f) == (true, g.(data := msg + Zeros(|g.data| - |msg|), buffer := Zeros(|g.buffer|)))
  {
    var rest := g.buffer[|msg| + 1..];
    var f := g.(buffer := msg + [END] + rest, dataReceived := true);
    IndexOfAppend(msg, [END] + rest, END);
    assert msg + [END] + rest == msg + ([END] + rest);
    assert f.buffer[..|msg|] == msg;
    ReadAllPadded(f);
  }

  /** Framing a message with no terminator and no NUL byte from an idle
      state with zero-padded SPI_data, then calling SPI_readAll, returns
      true and leaves exactly the message, zero-padded, in SPI_data and a
      cleared SPI_buffer; a second call returns false. */
  lemma FrameThenRead(g: Globals, msg: seq<Byte>)
    requires Idle(g) && |g.data| == |g.buffer| <= 0x100 && ZeroPadded(g.data)
    requires END !in msg && NUL !in msg && |msg| < |g.buffer|
    ensures var f := Feed(g, msg + [END]);
      CanReadAll(f) && AfterReadAll(f).0 &&
      AfterReadAll(f).1 == g.(data := msg + Zeros(|g.data| - |msg|), buffer := Zeros(|g.buffer|)) &&
      NUL in AfterReadAll(f).1.data && CString(AfterReadAll(f).1.data) == msg &&
      AfterReadAll(AfterReadAll(f).1) == (false, AfterReadAll(f).1)
  {
    FrameMessage(g, msg);
    ReadFramed(g, msg);
    CStringOfPadded(msg, |g.data| - |msg|);
  }

  /** 'T','O','G','G','L','E',0x0D fed from start-up, then SPI_readAll:
      SPI_data holds the C string "TOGGLE". */
  lemma ToggleScenario()
    ensures var f := Feed(Initial(), TOGGLE + [END]);
      CanReadAll(f) && AfterReadAll(f).0 &&
      NUL in AfterReadAll(f).1.data && CString(AfterReadAll(f).1.data) == TOGGLE
  {
    assert Strlen(Initial().data) == 0;
    FrameThenRead(Initial(), TOGGLE);
  }

  /** The state a successful SPI_readAll leaves, given the two arrays'
      new contents. */
  lemma ReadAllState(g: Globals, data: seq<Byte>, buffer: seq<Byte>)
    requires CanReadAll(g) && g.dataReceived
    requires data == g.buffer[..IndexOf(g.buffer, END)] + Zeroed(g.data, Strlen(g.data) % 0x100)[IndexOf(g.buffer, END)..]
    requires buffer == Zeros(|g.buffer|)
    ensures AfterReadAll(g) == (true, Globals(data, buffer, g.dataIndex, false))
  {
  }

  // ---------------------------------------------------------------------
  // The framer's state in place

  /** The globals of the .cpp driver as one object. ISR firings are atomic
      calls of Isr between whole foreground calls. */
  class Slave {
    const data: array<Byte>
    const buffer: array<Byte>
    var dataIndex: nat
    var dataReceived: bool

    ghost predicate Valid()
      reads this
    {
      data.Length == DATA_LENGTH && buffer.Length == DATA_LENGTH && data != buffer
    }

    ghost function State(): (g: Globals)
      reads this, data, buffer
    {
      Globals(data[..], buffer[..], dataIndex, dataReceived)
    }

    constructor ()
      ensures Valid() && fresh(data) && fresh(buffer)
      ensures State() == Initial()
    {
      data := new Byte[DATA_LENGTH](_ => NUL);
      buffer := new Byte[DATA_LENGTH](_ => NUL);
      dataIndex, dataReceived := 0, false;
    }

    /** ISR(SPI_STC_vect) receiving b. The source has no bound check; the
      cursor must be inside SPI_buffer. */
    method Isr(b: Byte)
      requires Valid() && dataIndex < DATA_LENGTH
      modifies this, buffer
      ensures Valid()
      ensures buffer[..] == old(buffer[..])[old(dataIndex) := b]
      ensures b != END ==> dataIndex == old(dataIndex) + 1 && dataReceived == old(dataReceived)
      ensures b == END ==> dataIndex == 0 && dataReceived
      ensures State() == AfterIsr(old(State()), b)
    {
      buffer[dataIndex] := b;
      var stored := buffer[dataIndex];
      dataIndex := dataIndex + 1;
      if stored == END {
        dataReceived := true;
        dataIndex := 0;
      }
    }

    /** SPI_readAll. */
    method ReadAll() returns (ok: bool)
      requires Valid() && CanReadAll(State())
      modifies this, data, buffer
      ensures Valid()
      ensures (ok, State()) == AfterReadAll(old(State()))
      ensures ok == old(dataReceived)
      ensures !ok ==> unchanged(this, data, buffer)
      ensures ok ==> !dataReceived && forall i :: 0 <= i < DATA_LENGTH ==> buffer[i] == NUL
      ensures ok ==> var k := IndexOf(old(buffer[..]), END); data[..k] == old(buffer[..k])
    {
      if dataReceived {
        ghost var oldData, oldBuf := data[..], buffer[..];
        ghost var k := IndexOf(oldBuf, END);
        FlushBuffer(data);
        ghost var flushed := data[..];
        assert flushed == Zeroed(oldData, Strlen(oldData) % 0x100);
        CopyUntil(buffer, data, END);
        assert data[..] == oldBuf[..k] + flushed[k..];
        Clear(buffer);
        ReadAllState(old(State()), data[..], buffer[..]);
        assert data[..k] == oldBuf[..k];
        dataReceived := false;
        ok := true;
      } else {
        ok := false;
      }
    }
  }

  /** The clearing loop at the end of SPI_readAll: every byte of
      SPI_buffer is set to 0. */
  method Clear(a: array<Byte>)
    modifies a
    ensures a[..] == Zeros(a.Length)
  {
    for j := 0 to a.Length
      invariant forall t :: 0 <= t < j ==> a[t] == NUL
    {
      a[j] := NUL;
    }
  }

  /** flushBuffer(array): the bytes before the first NUL become 0, with the
      length taken by strlen into a uint8_t; the rest stays. */
  method FlushBuffer(a: array<Byte>)
    requires NUL in a[..]
    modifies a
    ensures a[..] == Zeroed(old(a[..]), Strlen(old(a[..])) % 0x100)
    ensures a.Length <= 0x100 ==> a[..] == Zeroed(old(a[..]), Strlen(old(a[..])))
  {
    var size := Strlen(a[..]) % 0x100;
    ghost var before := a[..];
    for i := 0 to size
      invariant a[..] == Zeroed(before, i)
    {
      ZeroedStep(before, i);
      a[i] := NUL;
    }
  }

  // ---------------------------------------------------------------------
  // Packing received bytes

  /** hexArrayToHex(array): the fold `(acc << 8) | array[i]` over the first
      strlen(array) bytes (strlen kept in a uint8_t), each `char` promoted
      with its sign. */
  method HexArrayToHex(a: array<Byte>) returns (combined: nat)
    requires NUL in a[..]
    ensures combined == PackChars(a[..Strlen(a[..]) % 0x100])
    ensures a.Length <= 0x100 ==> combined == PackChars(CString(a[..]))
  {
    var size := Strlen(a[..]) % 0x100;
    combined := 0;
    for i := 0 to size
      invariant combined == PackChars(a[..i])
    {
      assert a[..i + 1][..i] == a[..i];
      combined := CharStep(combined, a[i]);
    }
  }

  /** For a C string whose bytes are all below 0x80, hexArrayToHex is the
      big-endian fold truncated to 64 bits, the value hexArrayToUint64_t
      computes from the same bytes. */
  lemma HexArrayToHexAscii(s: seq<Byte>)
    requires NUL in s
    requires forall i :: 0 <= i < Strlen(s) ==> s[i] < 0x80
    ensures PackChars(CString(s)) == Pack(CString(s)) % TWO_64
  {
    PackCharsAscii(CString(s));
  }

  /** As written, a received byte of 0x80 or more is a negative `char`:
      [0x12, 0x84] reads back as 0xFFFFFFFFFFFFFF84 rather than 0x1284. */
  lemma SignExtensionClobbers()
    ensures NUL in [0x12, 0x84, NUL]
    ensures PackChars(CString([0x12, 0x84, NUL])) == 0xFFFF_FFFF_FFFF_FF84
    ensures Pack(CString([0x12, 0x84, NUL])) == 0x1284
  {
    var s: seq<Byte> := [0x12, 0x84, NUL];
    CStringHead(s);
    CStringHead(s[1..]);
    CStringHead(s[2..]);
    assert CString(s) == [0x12, 0x84];
    assert [0x12, 0x84][..1] == [0x12];
    PackCharsSignExtends([0x12], 0x84);
  }

  /** As written, a 0x00 payload byte ends the number: what
      SPI_transmitHex(…, 2, 0x1200) sends reads back as 0x12. */
  lemma ZeroByteTruncates()
    ensures HexPayload(0x1200, 2) == [0x12, 0x00]
    ensures NUL in HexPayload(0x1200, 2)
    ensures PackChars(CString(HexPayload(0x1200, 2))) == 0x12
  {
    assert Pow256(1) == 0x100;
    var s: seq<Byte> := [0x12, 0x00];
    assert HexPayload(0x1200, 2) == s;
    CStringHead(s);
    CStringHead(s[1..]);
    assert CString(s) == [0x12];
    assert [0x12][..0] == [];
  }

  // ---------------------------------------------------------------------
  // Transmitting, with slave-select control

  /** SPI_transmitChar: c, then the terminator, between the two writes of
      the SS port. */
  method TransmitChar(m: Master, pin: nat, mode: Byte, c: Byte)
    requires pin < 8
    modifies m
    ensures m.log == old(m.log) + Guarded(old(m.port), pin, mode, [c, END])
    ensures m.port == EndLevel(old(m.port), pin, mode)
  {
    var pullHigh, pullLow := PullHigh(m.port, pin), PullLow(m.port, pin);
    m.SetPort(Pick(mode, pullLow, pullHigh));
    m.Put(c);
    m.Put(END);
    m.SetPort(Pick(mode, pullHigh, pullLow));
    assert Outs([c, END]) == [Out(c), Out(END)];
  }

  /** SPI_transmitString: the bytes of the C string s, then the terminator,
      between the two writes of the SS port. */
  method TransmitString(m: Master, pin: nat, mode: Byte, s: array<Byte>)
    requires pin < 8 && NUL in s[..]
    modifies m
    ensures m.log == old(m.log) + Guarded(old(m.port), pin, mode, CString(s[..]) + [END])
    ensures m.port == EndLevel(old(m.port), pin, mode)
  {
    var pullHigh, pullLow := PullHigh(m.port, pin), PullLow(m.port, pin);
    m.SetPort(Pick(mode, pullLow, pullHigh));
    ghost var start := m.log;
    var c := 0;
    while s[c] != NUL
      invariant 0 <= c <= Strlen(s[..])
      invariant m.log == start + Outs(s[..c])
      decreases Strlen(s[..]) - c
    {
      m.Put(s[c]);
      c := c + 1;
      assert Outs(s[..c]) == Outs(s[..c - 1]) + [Out(s[c - 1])];
    }
    m.Put(END);
    m.SetPort(Pick(mode, pullHigh, pullLow));
    GuardedFrom(old(m.log), old(m.port), pin, mode, s[..c], END);
  }

  /** SPI_receiveChar: one dummy 0xFF is clocked out between the two writes
      of the SS port; the byte the slave shifted in meanwhile (incoming) is
      returned. */
  method ReceiveChar(m: Master, pin: nat, mode: Byte, incoming: Byte) returns (c: Byte)
    requires pin < 8
    modifies m
    ensures c == incoming
    ensures m.log == old(m.log) + Guarded(old(m.port), pin, mode, [DUMMY])
    ensures m.port == EndLevel(old(m.port), pin, mode)
  {
    var pullHigh, pullLow := PullHigh(m.port, pin), PullLow(m.port, pin);
    m.SetPort(Pick(mode, pullLow, pullHigh));
    m.Put(DUMMY);
    c := incoming;
    m.SetPort(Pick(mode, pullHigh, pullLow));
    assert Outs([DUMMY]) == [Out(DUMMY)];
  }

  /** SPI_transmitHex: the numBytes low bytes of hexNumber, most significant
      first, then the terminator, between the two writes of the SS port.
      Each byte passes through a `char` on its way to SPDR, which keeps its
      bit pattern. */
  method TransmitHex(m: Master, pin: nat, mode: Byte, numBytes: Byte, hexNumber: nat)
    requires pin < 8 && numBytes <= 8 && hexNumber < TWO_64
    modifies m
    ensures m.log == old(m.log) + Guarded(old(m.port), pin, mode, HexPayload(hexNumber, numBytes) + [END])
    ensures m.port == EndLevel(old(m.port), pin, mode)
  {
    var pullHigh, pullLow := PullHigh(m.port, pin), PullLow(m.port, pin);
    m.SetPort(Pick(mode, pullLow, pullHigh));
    ghost var start := m.log;
    ghost var payload := HexPayload(hexNumber, numBytes);
    var i: int := numBytes - 1;
    while i >= 0
      invariant -1 <= i < numBytes
      invariant m.log == start + Outs(payload[..numBytes - 1 - i])
    {
      // (hexNumber >> (i * 8)) & 0xFF
      var b := (hexNumber / Pow256(i)) % 0x100;
      HexPayloadAt(hexNumber, numBytes, i);
      OutsPrefixStep(payload, numBytes - 1 - i);
      m.Put(b);
      i := i - 1;
    }
    m.Put(END);
    m.SetPort(Pick(mode, pullHigh, pullLow));
    assert payload[..numBytes] == payload;
    GuardedFrom(old(m.log), old(m.port), pin, mode, payload, END);
  }

  /** Master to slave: the bytes a string transmission shifts out between
      its two SS writes, received by the slave from start-up, are read back
      by SPI_readAll as the same C string. */
  lemma StringReadBack(port: bv8, pin: nat, mode: Byte, msg: seq<Byte>)
    requires pin < 8
    requires END !in msg && NUL !in msg && |msg| < DATA_LENGTH
    ensures Sent(Guarded(port, pin, mode, msg + [END])) == msg + [END]
    ensures var f := Feed(Initial(), Sent(Guarded(port, pin, mode, msg + [END])));
      CanReadAll(f) && AfterReadAll(f).0 &&
      NUL in AfterReadAll(f).1.data && CString(AfterReadAll(f).1.data) == msg
  {
    GuardedShape(port, pin, mode, msg + [END]);
    assert Initial().data[0] == NUL;
    assert Strlen(Initial().data) == 0;
    FrameThenRead(Initial(), msg);
  }
}
