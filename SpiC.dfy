/** The interrupt-driven SPI driver of src/AVR_SPI_with_interrupts.c, the
    variant whose buffers hold uint8_t and which counts received bytes. */
module SpiC {
  import opened Bytes
  import opened Hex
  import opened Bus

  // ---------------------------------------------------------------------
  // Receive framing: the driver's globals and what each step does to them

  /** SPI_data, SPI_buffer, dataIndex, dataReceived and receivedBytes. */
  datatype Globals = Globals(
    data: seq<Byte>,
    buffer: seq<Byte>,
    dataIndex: nat,
    dataReceived: bool,
    receivedBytes: nat)

  /** The globals' static initial values. */
  function Initial(): (g: Globals)
  {
    Globals(Zeros(DATA_LENGTH), Zeros(DATA_LENGTH), 0, false, 0)
  }

  /** No message pending and the cursor at the start, as after start-up
      and after every successful SPI_readAll that began with the cursor at 0. */
  predicate Idle(g: Globals)
  {
    g.dataIndex == 0 && !g.dataReceived && g.receivedBytes == 0
  }

  /** One firing of ISR(SPI_STC_vect) on received byte b: b is stored at the
      cursor; a terminator raises the flag and rewinds the cursor, any other
      byte advances both the cursor and the byte count. */
  function AfterIsr(g: Globals, b: Byte): (h: Globals)
    requires g.dataIndex < |g.buffer|
    ensures h.buffer == g.buffer[g.dataIndex := b] && h.data == g.data
    ensures h.dataReceived == (g.dataReceived || b == END)
    ensures b == END ==> h.dataIndex == 0 && h.receivedBytes == g.receivedBytes
    ensures b != END ==> h.dataIndex == g.dataIndex + 1 && h.receivedBytes == g.receivedBytes + 1
  {
    var stored := g.buffer[g.dataIndex := b];
    if b != END then
      g.(buffer := stored, dataIndex := g.dataIndex + 1, receivedBytes := g.receivedBytes + 1)
    else
      g.(buffer := stored, dataReceived := true, dataIndex := 0)
  }

  /** The ISR firing once for each byte of bs, with no foreground call in
      between. The requirement bounds the cursor over the whole run, which
      is more than each firing needs (a terminator rewinds the cursor); a
      run spanning several frames is given as several calls. */
  function Feed(g: Globals, bs: seq<Byte>): (h: Globals)
    requires g.dataIndex + |bs| <= |g.buffer|
    ensures |h.buffer| == |g.buffer| && h.data == g.data
    ensures h.dataIndex <= g.dataIndex + |bs|
    decreases |bs|
  {
    if bs == [] then g else AfterIsr(Feed(g, bs[..|bs| - 1]), bs[|bs| - 1])
  }

  /** What SPI_readAll needs to stay inside its arrays: a terminator to stop
      the copy loop when the flag is up, and a byte count no larger than
      the arrays it clears. */
  predicate CanReadAll(g: Globals)
  {
    |g.data| == |g.buffer| && g.receivedBytes <= |g.buffer| &&
    (g.dataReceived ==> END in g.buffer)
  }

  /** SPI_readAll: with the flag down nothing happens and false is
      returned. With the flag up, SPI_data[0..receivedBytes) is cleared, the
      bytes of SPI_buffer before its first terminator are copied over the
      front of SPI_data, SPI_buffer[0..receivedBytes) is cleared, the flag
      and the count are reset and true is returned. */
  function AfterReadAll(g: Globals): (result: (bool, Globals))
    requires CanReadAll(g)
    ensures result.0 == g.dataReceived
    ensures !g.dataReceived ==> result.1 == g
    ensures |result.1.data| == |g.data| && |result.1.buffer| == |g.buffer|
    ensures !result.1.dataReceived && result.1.dataIndex == g.dataIndex
    ensures g.dataReceived ==> result.1.receivedBytes == 0
  {
    if !g.dataReceived then (false, g)
    else
      var k := IndexOf(g.buffer, END);
      var flushed := Zeroed(g.data, g.receivedBytes);
      (true, g.(data := g.buffer[..k] + flushed[k..],
                buffer := Zeroed(g.buffer, g.receivedBytes),
                dataReceived := false,
                receivedBytes := 0))
  }

  /** SPI_readAll as its comment intends it: the previous message is flushed
      from all of SPI_data, not only from as many bytes as the new one has. */
  function AfterReadAllFixed(g: Globals): (result: (bool, Globals))
    requires CanReadAll(g)
    ensures result.0 == g.dataReceived
    ensures !g.dataReceived ==> result.1 == g
    ensures g.dataReceived ==>
      var k, h := IndexOf(g.buffer, END), result.1;
      |h.data| == |g.data| && h.data[..k] == g.buffer[..k] &&
      (forall i :: k <= i < |h.data| ==> h.data[i] == NUL) &&
      h.(data := g.data) == AfterReadAll(g).1.(data := g.data)
  {
    if !g.dataReceived then (false, g)
    else
      var k := IndexOf(g.buffer, END);
      (true, g.(data := g.buffer[..k] + Zeros(|g.data| - k),
                buffer := Zeroed(g.buffer, g.receivedBytes),
                dataReceived := false,
                receivedBytes := 0))
  }

  // ---------------------------------------------------------------------
  // Properties of the framer

  /** What a successful SPI_readAll changes and what it leaves alone, with
      k the first terminator in SPI_buffer and n = receivedBytes: SPI_data
      gets SPI_buffer[0..k) and zeros on [k, n) and keeps the rest;
      SPI_buffer is zeroed on [0, n) only, so a terminator at or above n
      stays where it is. */
  lemma ReadAllFrame(g: Globals)
    requires CanReadAll(g) && g.dataReceived
    ensures var k, n, h := IndexOf(g.buffer, END), g.receivedBytes, AfterReadAll(g).1;
      AfterReadAll(g).0 &&
      h.data[..k] == g.buffer[..k] &&
      (forall i :: k <= i < |g.data| ==> h.data[i] == if i < n then NUL else g.data[i]) &&
      (forall i :: 0 <= i < |g.buffer| ==> h.buffer[i] == if i < n then NUL else g.buffer[i]) &&
      !h.dataReceived && h.receivedBytes == 0 && h.dataIndex == g.dataIndex
  {
  }

  /** Payload bytes (no terminator) land one after another at the cursor,
      and cursor and count advance by their number; nothing else moves. */
  lemma {:induction false} FeedPayload(g: Globals, msg: seq<Byte>)
    requires g.dataIndex + |msg| <= |g.buffer|
    requires END !in msg
    ensures Feed(g, msg) == g.(
      buffer := g.buffer[..g.dataIndex] + msg + g.buffer[g.dataIndex + |msg|..],
      dataIndex := g.dataIndex + |msg|,
      receivedBytes := g.receivedBytes + |msg|)
  {
    if msg == [] {
      assert g.buffer[..g.dataIndex] + msg + g.buffer[g.dataIndex..] == g.buffer;
    } else {
      var init, last := msg[..|msg| - 1], msg[|msg| - 1];
      assert msg == init + [last];
      FeedPayload(g, init);
      var h := Feed(g, init);
      var i := g.dataIndex + |init|;
      assert Feed(g, msg) == AfterIsr(h, last);
      assert h.buffer[i := last] == g.buffer[..g.dataIndex] + msg + g.buffer[i + 1..] by {
        var pre, rest := g.buffer[..g.dataIndex] + init, g.buffer[i..];
        assert h.buffer == pre + rest;
        SpliceAt(pre, rest, last);
        assert pre + [last] == g.buffer[..g.dataIndex] + msg;
        assert rest[1..] == g.buffer[i + 1..];
      }
    }
  }

  /** A message of fewer than DATA_LENGTH bytes without a terminator,
      followed by the terminator and sent from an idle state, lands at the
      front of SPI_buffer, raises the flag once, rewinds the cursor and
      leaves the message's length in the byte count. */
  lemma FrameMessage(g: Globals, msg: seq<Byte>)
    requires Idle(g)
    requires END !in msg && |msg| < |g.buffer|
    ensures Feed(g, msg + [END]) == g.(
      buffer := msg + [END] + g.buffer[|msg| + 1..],
      dataReceived := true,
      receivedBytes := |msg|)
  {
    var bs := msg + [END];
    assert bs[..|bs| - 1] == msg;
    var h := Feed(g, msg);
    FeedPayload(g, msg);
    var rest := g.buffer[|msg|..];
    assert g.buffer[..0] + msg + rest == msg + rest;
    assert h.buffer == msg + rest && h.dataIndex == |msg|;
    assert Feed(g, bs) == AfterIsr(h, END);
    SpliceAt(msg, rest, END);
    assert rest[1..] == g.buffer[|msg| + 1..];
  }

  /** SPI_readAll right after such a message: it returns true, puts the
      message at the front of SPI_data (whose old bytes stay behind it),
      clears the message's bytes in SPI_buffer and goes back to idle. */
  lemma ReadFramed(g: Globals, msg: seq<Byte>)
    requires Idle(g) && |g.data| == |g.buffer|
    requires END !in msg && |msg| < |g.buffer|
    ensures var f := g.(buffer := msg + [END] + g.buffer[|msg| + 1..], dataReceived := true, receivedBytes := |msg|);
      CanReadAll(f) &&
      AfterReadAll(f) == (true, g.(
        data := msg + g.data[|msg|..],
        buffer := Zeros(|msg|) + [END] + g.buffer[|msg| + 1..]))
  {
    var rest := g.buffer[|msg| + 1..];
    var f := g.(buffer := msg + [END] + rest, dataReceived := true, receivedBytes := |msg|);
    IndexOfAppend(msg, [END] + rest, END);
    assert msg + [END] + rest == msg + ([END] + rest);
    assert f.buffer[..|msg|] == msg;
    assert IndexOf([END] + rest, END) == 0;
    assert IndexOf(f.buffer, END) == |msg|;
    ZeroedSplit(g.data, |msg|);
    assert (Zeros(|msg|) + g.data[|msg|..])[|msg|..] == g.data[|msg|..];
    assert f.buffer[|msg|..] == [END] + rest;
    ZeroedSplit(f.buffer, |msg|);
    var h := AfterReadAll(f).1;
    assert h.data == msg + g.data[|msg|..];
    assert h.buffer == Zeros(|msg|) + [END] + rest;
  }

  /** The two together: framing the message then calling SPI_readAll
      returns true with the message at the front of SPI_data, and a second
      call returns false. */
  lemma FrameThenRead(g: Globals, msg: seq<Byte>)
    requires Idle(g) && |g.data| == |g.buffer|
    requires END !in msg && |msg| < |g.buffer|
    ensures var f := Feed(g, msg + [END]);
      CanReadAll(f) && AfterReadAll(f).0 &&
      AfterReadAll(f).1.data == msg + g.data[|msg|..] &&
      Idle(AfterReadAll(f).1) &&
      AfterReadAll(AfterReadAll(f).1) == (false, AfterReadAll(f).1)
  {
    FrameMessage(g, msg);
    ReadFramed(g, msg);
  }

  /** 'T','O','G','G','L','E',0x0D fed from start-up, then SPI_readAll:
      SPI_strcmp(SPI_data, "TOGGLE") is 0. */
  lemma ToggleScenario()
    ensures var f := Feed(Initial(), TOGGLE + [END]);
      CanReadAll(f) && AfterReadAll(f).0 &&
      NUL in AfterReadAll(f).1.data &&
      Strcmp(AfterReadAll(f).1.data, TOGGLE + [NUL]) == 0
  {
    ReadFromStart(TOGGLE);
    CStringOfPadded(TOGGLE, DATA_LENGTH - |TOGGLE|);
    CStringOfPadded(TOGGLE, 1);
  }

  /** The first message after start-up, read: it is followed by zeros in
      SPI_data. */
  lemma ReadFromStart(msg: seq<Byte>)
    requires END !in msg && |msg| < DATA_LENGTH
    ensures var f := Feed(Initial(), msg + [END]);
      CanReadAll(f) && AfterReadAll(f).0 &&
      AfterReadAll(f).1.data == msg + Zeros(DATA_LENGTH - |msg|) &&
      Idle(AfterReadAll(f).1) && |AfterReadAll(f).1.buffer| == DATA_LENGTH
  {
    FrameThenRead(Initial(), msg);
    assert Initial().data[|msg|..] == Zeros(DATA_LENGTH - |msg|);
  }

  /** As written, SPI_readAll clears only as many bytes of SPI_data as the
      new message has: after a message prev has been read, reading a
      shorter message msg leaves the C string msg followed by the rest of
      prev in SPI_data, so SPI_strcmp(SPI_data, msg) is not 0. For example,
      "TOGGLED" then "TOGGLE" leaves "TOGGLED". */
  lemma StaleTail(prev: seq<Byte>, msg: seq<Byte>)
    requires END !in prev && NUL !in prev && |prev| < DATA_LENGTH
    requires END !in msg && NUL !in msg && |msg| < |prev|
    ensures var f1 := Feed(Initial(), prev + [END]);
      CanReadAll(f1) &&
      var f2 := Feed(AfterReadAll(f1).1, msg + [END]);
      CanReadAll(f2) &&
      NUL in AfterReadAll(f2).1.data &&
      CString(AfterReadAll(f2).1.data) == msg + prev[|msg|..] &&
      Strcmp(AfterReadAll(f2).1.data, msg + [NUL]) != 0
  {
    var pad := DATA_LENGTH - |prev|;
    ReadFromStart(prev);
    var g1 := AfterReadAll(Feed(Initial(), prev + [END])).1;
    FrameThenRead(g1, msg);
    var g2 := AfterReadAll(Feed(g1, msg + [END])).1;
    var seen := msg + prev[|msg|..];
    assert g1.data[|msg|..] == prev[|msg|..] + Zeros(pad);
    assert g2.data == seen + Zeros(pad);
    assert NUL !in seen by { assert forall x :: x in prev[|msg|..] ==> x in prev; }
    CStringOfPadded(seen, pad);
    CStringOfPadded(msg, 1);
  }

  /** With SPI_data flushed in full, a message without NUL bytes framed from
      an idle state is exactly what SPI_data holds afterwards as a C
      string, whatever an earlier message left there. */
  lemma FixedReadAllDelivers(g: Globals, msg: seq<Byte>)
    requires Idle(g) && |g.data| == |g.buffer|
    requires END !in msg && NUL !in msg && |msg| < |g.buffer|
    ensures var f := Feed(g, msg + [END]);
      CanReadAll(f) && AfterReadAllFixed(f).0 &&
      AfterReadAllFixed(f).1.data == msg + Zeros(|g.data| - |msg|) &&
      NUL in AfterReadAllFixed(f).1.data &&
      CString(AfterReadAllFixed(f).1.data) == msg &&
      Idle(AfterReadAllFixed(f).1)
  {
    FrameMessage(g, msg);
    ReadFramedFixed(g, msg);
    CStringOfPadded(msg, |g.data| - |msg|);
  }

  lemma ReadFramedFixed(g: Globals, msg: seq<Byte>)
    requires Idle(g) && |g.data| == |g.buffer|
    requires END !in msg && |msg| < |g.buffer|
    ensures var f := g.(buffer := msg + [END] + g.buffer[|msg| + 1..], dataReceived := true, receivedBytes := |msg|);
      CanReadAll(f) &&
      AfterReadAllFixed(f) == (true, g.(
        data := msg + Zeros(|g.data| - |msg|),
        buffer := Zeros(|msg|) + [END] + g.buffer[|msg| + 1..]))
  {
    var rest := g.buffer[|msg| + 1..];
    var f := g.(buffer := msg + [END] + rest, dataReceived := true, receivedBytes := |msg|);
    IndexOfAppend(msg, [END] + rest, END);
    assert msg + [END] + rest == msg + ([END] + rest);
    assert f.buffer[..|msg|] == msg;
    assert IndexOf([END] + rest, END) == 0;
    assert IndexOf(f.buffer, END) == |msg|;
    assert f.buffer[|msg|..] == [END] + rest;
    ZeroedSplit(f.buffer, |msg|);
    var h := AfterReadAllFixed(f).1;
    assert h.buffer == Zeros(|msg|) + [END] + rest;
  }

  // ---------------------------------------------------------------------
  // The framer's state in place

  /** The globals of the .c driver as one object. ISR firings are atomic
      calls of Isr between whole foreground calls. */
  class Slave {
    const data: array<Byte>
    const buffer: array<Byte>
    var dataIndex: nat
    var dataReceived: bool
    var receivedBytes: nat

    ghost predicate Valid()
      reads this
    {
      data.Length == DATA_LENGTH && buffer.Length == DATA_LENGTH && data != buffer
    }

    ghost function State(): (g: Globals)
      reads this, data, buffer
    {
      Globals(data[..], buffer[..], dataIndex, dataReceived, receivedBytes)
    }

    constructor ()
      ensures Valid() && fresh(data) && fresh(buffer)
      ensures State() == Initial()
    {
      data := new Byte[DATA_LENGTH](_ => NUL);
      buffer := new Byte[DATA_LENGTH](_ => NUL);
      dataIndex, dataReceived, receivedBytes := 0, false, 0;
    }

    /** ISR(SPI_STC_vect) receiving b. The source has no bound check; the
      cursor must be inside SPI_buffer. */
    method Isr(b: Byte)
      requires Valid() && dataIndex < DATA_LENGTH
      modifies this, buffer
      ensures Valid()
      ensures buffer[..] == old(buffer[..])[old(dataIndex) := b]
      ensures b != END ==>
        dataIndex == old(dataIndex) + 1 && receivedBytes == old(receivedBytes) + 1 &&
        dataReceived == old(dataReceived)
      ensures b == END ==>
        dataIndex == 0 && receivedBytes == old(receivedBytes) && dataReceived
      ensures State() == AfterIsr(old(State()), b)
    {
      buffer[dataIndex] := b;
      if buffer[dataIndex] != END {
        dataIndex := dataIndex + 1;
        receivedBytes := receivedBytes + 1;
      } else {
        dataReceived := true;
        dataIndex := 0;
      }
    }

    /** SPI_readAll. */
    method ReadAll() returns (ok: bool)
      requires Valid() && CanReadAll(State())
      modifies this, data, buffer
      ensures Valid()
      ensures (ok, State()) == AfterReadAll(old(State()))
      ensures ok == old(dataReceived)
      ensures !ok ==> unchanged(this, data, buffer)
      ensures ok ==> !dataReceived && receivedBytes == 0
      ensures ok ==> var k := IndexOf(old(buffer[..]), END); data[..k] == old(buffer[..k])
    {
      if dataReceived {
        ghost var oldData, oldBuf := data[..], buffer[..];
        ghost var k := IndexOf(oldBuf, END);
        FlushBuffer(data, receivedBytes);
        ghost var flushed := data[..];
        assert flushed == Zeroed(oldData, receivedBytes);
        CopyUntil(buffer, data, END);
        assert data[..] == oldBuf[..k] + flushed[k..];
        for j := 0 to receivedBytes
          modifies buffer
          invariant forall t :: 0 <= t < DATA_LENGTH ==> buffer[t] == if t < j then NUL else old(buffer[t])
        {
          buffer[j] := NUL;
        }
        assert buffer[..] == Zeroed(oldBuf, receivedBytes);
        assert data[..] == oldBuf[..k] + Zeroed(oldData, receivedBytes)[k..];
        dataReceived := false;
        receivedBytes := 0;
        ok := true;
      } else {
        ok := false;
      }
    }
  }

  /** flushBuffer(array, size): array[0..size) becomes 0, the rest stays. */
  method FlushBuffer(a: array<Byte>, size: nat)
    requires size <= a.Length
    modifies a
    ensures a[..] == Zeroed(old(a[..]), size)
    ensures forall i :: 0 <= i < a.Length ==> a[i] == if i < size then NUL else old(a[i])
  {
    for i := 0 to size
      invariant a[..] == Zeroed(old(a[..]), i)
    {
      ZeroedStep(old(a[..]), i);
      a[i] := NUL;
    }
  }

  // ---------------------------------------------------------------------
  // Comparing received data

  /** SPI_strcmp(str1, str2) = strcmp((char *)str1, str2). Bytes are compared
      as unsigned char up to the first pair that differs or a common NUL;
      the result is the difference of that pair (0 when none differs). The
      C standard fixes only its sign. */
  function Strcmp(a: seq<Byte>, b: seq<Byte>): (r: int)
    requires NUL in a && NUL in b
    ensures r == 0 <==> CString(a) == CString(b)
    decreases |a|
  {
    CStringHead(a);
    CStringHead(b);
    if a[0] != b[0] then a[0] - b[0]
    else if a[0] == NUL then 0
    else Strcmp(a[1..], b[1..])
  }

  /** The ordering strcmp decides: a proper prefix comes first, otherwise
      the first differing byte decides. */
  predicate LexLess(x: seq<Byte>, y: seq<Byte>)
  {
    if x == [] then y != []
    else y != [] && (x[0] < y[0] || (x[0] == y[0] && LexLess(x[1..], y[1..])))
  }

  /** The sign of SPI_strcmp orders the two C strings, and swapping the
      arguments negates the result. */
  lemma {:induction false} StrcmpOrder(a: seq<Byte>, b: seq<Byte>)
    requires NUL in a && NUL in b
    ensures Strcmp(a, b) < 0 <==> LexLess(CString(a), CString(b))
    ensures Strcmp(a, b) > 0 <==> LexLess(CString(b), CString(a))
    ensures Strcmp(a, b) == -Strcmp(b, a)
    decreases |a|
  {
    CStringHead(a);
    CStringHead(b);
    if a[0] == b[0] && a[0] != NUL {
      StrcmpOrder(a[1..], b[1..]);
    }
  }

  // ---------------------------------------------------------------------
  // Packing received bytes

  /** hexArrayToUint64_t(array, size): the big-endian fold of the first size
      bytes, truncated to 64 bits. */
  method HexArrayToUint64(a: array<Byte>, size: nat) returns (combined: nat)
    requires size <= a.Length
    ensures combined == Pack(a[..size]) % TWO_64
  {
    combined := 0;
    for i := 0 to size
      invariant combined == Pack(a[..i]) % TWO_64
    {
      PackAppendMod(a[..i], a[i]);
      assert a[..i + 1] == a[..i] + [a[i]];
      // (combined << 8) | a[i]: the shifted value's low byte is 0, so `|` adds
      combined := Shl8(combined) + a[i];
    }
  }

  /** Up to 8 bytes pack without loss: the 64-bit result is the weighted
      sum itself and stays below 2^(8 * size). */
  lemma PackFits(s: seq<Byte>)
    requires |s| <= 8
    ensures Pack(s) % TWO_64 == Pack(s) == WeightedSum(s)
    ensures Pack(s) < Pow256(|s|)
  {
    PackBound(s);
    PackIsWeightedSum(s);
    Pow256Mono(|s|, 8);
    Pow256Eight();
  }

  /** hexArrayToUint64_t over what SPI_transmitHex(…, numBytes, hexNumber)
      sends gives back the numBytes low bytes of hexNumber. */
  lemma HexRoundTrip(v: nat, n: nat)
    requires n <= 8 && v < TWO_64
    ensures |HexPayload(v, n)| == n
    ensures Pack(HexPayload(v, n)) % TWO_64 == v % Pow256(n)
  {
    PackHexPayload(v, n);
    PackFits(HexPayload(v, n));
  }

  /** SPI_transmitHex(…, 2, 0x1234) sends 0x12, 0x34. */
  lemma HexPayloadExample()
    ensures HexPayload(0x1234, 2) == [0x12, 0x34]
  {
    assert Pow256(1) == 0x100;
  }

  // ---------------------------------------------------------------------
  // Transmitting, with slave-select control

  /** SPI_transmitUint8_t: data, then the terminator, between the two writes
      of the SS port. */
  method TransmitUint8(m: Master, pin: nat, mode: Byte, data: Byte)
    requires pin < 8
    modifies m
    ensures m.log == old(m.log) + Guarded(old(m.port), pin, mode, [data, END])
    ensures m.port == EndLevel(old(m.port), pin, mode)
  {
    var pullHigh, pullLow := PullHigh(m.port, pin), PullLow(m.port, pin);
    m.SetPort(Pick(mode, pullLow, pullHigh));
    m.Put(data);
    m.Put(END);
    m.SetPort(Pick(mode, pullHigh, pullLow));
    assert Outs([data, END]) == [Out(data), Out(END)];
  }

  /** SPI_transmitString: the bytes of the C string s, then the terminator,
      between the two writes of the SS port. */
  method TransmitString(m: Master, pin: nat, mode: Byte, s: array<Byte>)
    requires pin < 8 && NUL in s[..]
    modifies m
    ensures m.log == old(m.log) + Guarded(old(m.port), pin, mode, CString(s[..]) + [END])
    ensures m.port == EndLevel(old(m.port), pin, mode)
  {
    var pullHigh, pullLow := PullHigh(m.port, pin), PullLow(m.port, pin);
    m.SetPort(Pick(mode, pullLow, pullHigh));
    ghost var start := m.log;
    var i := 0;
    while s[i] != NUL
      invariant 0 <= i <= Strlen(s[..])
      invariant m.log == start + Outs(s[..i])
      decreases Strlen(s[..]) - i
    {
      m.Put(s[i]);
      i := i + 1;
      assert Outs(s[..i]) == Outs(s[..i - 1]) + [Out(s[i - 1])];
    }
    m.Put(END);
    m.SetPort(Pick(mode, pullHigh, pullLow));
    GuardedFrom(old(m.log), old(m.port), pin, mode, s[..i], END);
  }

  /** SPI_receiveUint8_t: one dummy 0xFF is clocked out between the two
      writes of the SS port; the byte the slave shifted in meanwhile
      (incoming) is returned. */
  method ReceiveUint8(m: Master, pin: nat, mode: Byte, incoming: Byte) returns (r: Byte)
    requires pin < 8
    modifies m
    ensures r == incoming
    ensures m.log == old(m.log) + Guarded(old(m.port), pin, mode, [DUMMY])
    ensures m.port == EndLevel(old(m.port), pin, mode)
  {
    var pullHigh, pullLow := PullHigh(m.port, pin), PullLow(m.port, pin);
    m.SetPort(Pick(mode, pullLow, pullHigh));
    m.Put(DUMMY);
    r := incoming;
    m.SetPort(Pick(mode, pullHigh, pullLow));
    assert Outs([DUMMY]) == [Out(DUMMY)];
  }

  /** SPI_transmitHex: the numBytes low bytes of hexNumber, most significant
      first, then the terminator, between the two writes of the SS port. */
  method TransmitHex(m: Master, pin: nat, mode: Byte, numBytes: Byte, hexNumber: nat)
    requires pin < 8 && numBytes <= 8 && hexNumber < TWO_64
    modifies m
    ensures m.log == old(m.log) + Guarded(old(m.port), pin, mode, HexPayload(hexNumber, numBytes) + [END])
    ensures m.port == EndLevel(old(m.port), pin, mode)
  {
    var pullHigh, pullLow := PullHigh(m.port, pin), PullLow(m.port, pin);
    m.SetPort(Pick(mode, pullLow, pullHigh));
    ghost var start := m.log;
    ghost var payload := HexPayload(hexNumber, numBytes);
    var i: int := numBytes - 1;
    while i >= 0
      invariant -1 <= i < numBytes
      invariant m.log == start + Outs(payload[..numBytes - 1 - i])
    {
      // (hexNumber >> (i * 8)) & 0xFF
      var b := (hexNumber / Pow256(i)) % 0x100;
      HexPayloadAt(hexNumber, numBytes, i);
      OutsPrefixStep(payload, numBytes - 1 - i);
      m.Put(b);
      i := i - 1;
    }
    m.Put(END);
    m.SetPort(Pick(mode, pullHigh, pullLow));
    assert payload[..numBytes] == payload;
    GuardedFrom(old(m.log), old(m.port), pin, mode, payload, END);
  }

  /** Master to slave: the bytes a string transmission shifts out between
      its two SS writes, received by the slave from start-up, are read back
      by SPI_readAll as the same C string. */
  lemma StringReadBack(port: bv8, pin: nat, mode: Byte, msg: seq<Byte>)
    requires pin < 8
    requires END !in msg && NUL !in msg && |msg| < DATA_LENGTH
    ensures Sent(Guarded(port, pin, mode, msg + [END])) == msg + [END]
    ensures var f := Feed(Initial(), Sent(Guarded(port, pin, mode, msg + [END])));
      CanReadAll(f) && AfterReadAll(f).0 &&
      NUL in AfterReadAll(f).1.data && CString(AfterReadAll(f).1.data) == msg
  {
    GuardedShape(port, pin, mode, msg + [END]);
    ReadFromStart(msg);
    CStringOfPadded(msg, DATA_LENGTH - |msg|);
  }
}
