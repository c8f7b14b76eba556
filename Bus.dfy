/** The master's side of the bus as the transmit helpers see it: the
    slave-select port register they write twice per call, and the data
    register every transferred byte is written to. Each transfer
    (SPI_masterPutUint8_t / SPI_masterPutChar, whose SPIF busy-wait is not
    modelled) is one atomic step that appends the byte to an output log. */
module Bus {
  import opened Bytes

  /** SS line polarity selectors of AVR_SPI_with_interrupts.h. */
  const INVERTED_SS_CONTROL: Byte := 0
  const DEFAULT_SS_CONTROL: Byte := 1

  /** The dummy byte written to generate the clock for a master read. */
  const DUMMY: Byte := 0xFF

  /** What the master does to the outside world, in order. */
  datatype Event =
    | Select(level: bv8)  // a write of `level` to the SS port register
    | Out(b: Byte)        // a byte written to SPDR and shifted out

  /** `*SS_PORTx | (1 << SS_PORTxn)`: the SS bit set, every other bit kept. */
  function PullHigh(port: bv8, pin: nat): (v: bv8)
    requires pin < 8
    ensures BitSet(v, pin)
    ensures forall j: nat :: j < 8 && j != pin ==> BitSet(v, j) == BitSet(port, j)
  {
    SetBitKeepsOthers(port, pin);
    port | (1 << pin)
  }

  /** `*SS_PORTx & ~(1 << SS_PORTxn)`: the SS bit cleared, every other bit kept. */
  function PullLow(port: bv8, pin: nat): (v: bv8)
    requires pin < 8
    ensures !BitSet(v, pin)
    ensures forall j: nat :: j < 8 && j != pin ==> BitSet(v, j) == BitSet(port, j)
  {
    ClearBitKeepsOthers(port, pin);
    port & !(1 << pin)
  }

  /** The value of a C comparison: 1 when it holds, 0 otherwise. */
  function Truth(c: bool): bv8
  {
    if c then 1 else 0
  }

  /** One of the two values by mode, or 0 for any other mode; it equals
      `(SSmode == DEFAULT_SS_CONTROL) * forDefault + (SSmode == INVERTED_SS_CONTROL) * forInverted`
      evaluated on 8-bit values. */
  function Pick(mode: Byte, forDefault: bv8, forInverted: bv8): (v: bv8)
    ensures v == Truth(mode == DEFAULT_SS_CONTROL) * forDefault + Truth(mode == INVERTED_SS_CONTROL) * forInverted
  {
    if mode == DEFAULT_SS_CONTROL then forDefault
    else if mode == INVERTED_SS_CONTROL then forInverted
    else 0
  }

  /** The port value written before the first byte of a transfer: in
      default mode the SS bit is driven low, in inverted mode high, and
      every other bit keeps the value it had when the call began. Any other
      mode writes 0 to the whole port. */
  function StartLevel(port: bv8, pin: nat, mode: Byte): (v: bv8)
    requires pin < 8
    ensures mode == DEFAULT_SS_CONTROL ==> !BitSet(v, pin)
    ensures mode == INVERTED_SS_CONTROL ==> BitSet(v, pin)
    ensures mode == DEFAULT_SS_CONTROL || mode == INVERTED_SS_CONTROL ==>
      forall j: nat :: j < 8 && j != pin ==> BitSet(v, j) == BitSet(port, j)
    ensures mode != DEFAULT_SS_CONTROL && mode != INVERTED_SS_CONTROL ==> v == 0
  {
    Pick(mode, PullLow(port, pin), PullHigh(port, pin))
  }

  /** The port value written after the last byte of a transfer: the
      reverse of StartLevel, computed from the same entry snapshot. */
  function EndLevel(port: bv8, pin: nat, mode: Byte): (v: bv8)
    requires pin < 8
    ensures mode == DEFAULT_SS_CONTROL ==> BitSet(v, pin)
    ensures mode == INVERTED_SS_CONTROL ==> !BitSet(v, pin)
    ensures mode == DEFAULT_SS_CONTROL || mode == INVERTED_SS_CONTROL ==>
      forall j: nat :: j < 8 && j != pin ==> BitSet(v, j) == BitSet(port, j)
    ensures mode != DEFAULT_SS_CONTROL && mode != INVERTED_SS_CONTROL ==> v == 0
  {
    Pick(mode, PullHigh(port, pin), PullLow(port, pin))
  }

  /** Bit j of v is 1. */
  predicate BitSet(v: bv8, j: nat)
    requires j < 8
  {
    v & (1 << j) != 0
  }

  lemma ClearBitKeepsOthers(port: bv8, pin: nat)
    requires pin < 8
    ensures !BitSet(port & !(1 << pin), pin)
    ensures forall j: nat :: j < 8 && j != pin ==> BitSet(port & !(1 << pin), j) == BitSet(port, j)
  {
    forall j: nat | j < 8 && j != pin
      ensures BitSet(port & !(1 << pin), j) == BitSet(port, j)
    {
      var m, k := (1 as bv8) << pin, (1 as bv8) << j;
      assert m & k == 0;
    }
  }

  lemma SetBitKeepsOthers(port: bv8, pin: nat)
    requires pin < 8
    ensures BitSet(port | (1 << pin), pin)
    ensures forall j: nat :: j < 8 && j != pin ==> BitSet(port | (1 << pin), j) == BitSet(port, j)
  {
    forall j: nat | j < 8 && j != pin
      ensures BitSet(port | (1 << pin), j) == BitSet(port, j)
    {
      var m, k := (1 as bv8) << pin, (1 as bv8) << j;
      assert m & k == 0;
    }
  }

  /** One Out event per byte, in order. */
  function Outs(bytes: seq<Byte>): (events: seq<Event>)
  {
    seq(|bytes|, i requires 0 <= i < |bytes| => Out(bytes[i]))
  }

  /** A whole select-guarded exchange: the SS port is asserted, the bytes
      are shifted out, the SS port is released. */
  function Guarded(port: bv8, pin: nat, mode: Byte, bytes: seq<Byte>): (events: seq<Event>)
    requires pin < 8
  {
    [Select(StartLevel(port, pin, mode))] + Outs(bytes) + [Select(EndLevel(port, pin, mode))]
  }

  /** The bytes a log shifts out, leaving the port writes aside. */
  function Sent(log: seq<Event>): (bytes: seq<Byte>)
  {
    if log == [] then []
    else (if log[0].Out? then [log[0].b] else []) + Sent(log[1..])
  }

  /** A guarded exchange whose payload ends with b, written event by event
      after an earlier log. */
  lemma GuardedFrom(log0: seq<Event>, port: bv8, pin: nat, mode: Byte, bytes: seq<Byte>, b: Byte)
    requires pin < 8
    ensures log0 + [Select(StartLevel(port, pin, mode))] + Outs(bytes) + [Out(b)] + [Select(EndLevel(port, pin, mode))]
         == log0 + Guarded(port, pin, mode, bytes + [b])
  {
    assert (bytes + [b])[..|bytes|] == bytes;
    assert (bytes + [b])[..|bytes| + 1] == bytes + [b];
    OutsPrefixStep(bytes + [b], |bytes|);
  }

  /** Transferring one more byte of a sequence extends the log by it. */
  lemma OutsPrefixStep(bytes: seq<Byte>, j: nat)
    requires j < |bytes|
    ensures Outs(bytes[..j + 1]) == Outs(bytes[..j]) + [Out(bytes[j])]
  {
  }

  lemma {:induction false} SentOuts(bytes: seq<Byte>)
    ensures Sent(Outs(bytes)) == bytes
  {
    if bytes != [] {
      assert Outs(bytes)[1..] == Outs(bytes[1..]);
      SentOuts(bytes[1..]);
    }
  }

  lemma {:induction false} SentAppend(a: seq<Event>, b: seq<Event>)
    ensures Sent(a + b) == Sent(a) + Sent(b)
  {
    if a == [] {
      assert a + b == b;
    } else {
      assert (a + b)[1..] == a[1..] + b;
      SentAppend(a[1..], b);
    }
  }

  /** A guarded exchange is bracketed by the two port writes, and what it
      shifts out between them is exactly the given bytes. */
  lemma GuardedShape(port: bv8, pin: nat, mode: Byte, bytes: seq<Byte>)
    requires pin < 8
    ensures |Guarded(port, pin, mode, bytes)| == |bytes| + 2
    ensures Guarded(port, pin, mode, bytes)[0] == Select(StartLevel(port, pin, mode))
    ensures Guarded(port, pin, mode, bytes)[|bytes| + 1] == Select(EndLevel(port, pin, mode))
    ensures forall i :: 1 <= i <= |bytes| ==> Guarded(port, pin, mode, bytes)[i] == Out(bytes[i - 1])
    ensures Sent(Guarded(port, pin, mode, bytes)) == bytes
  {
    var first, last := [Select(StartLevel(port, pin, mode))], [Select(EndLevel(port, pin, mode))];
    SentAppend(first + Outs(bytes), last);
    SentAppend(first, Outs(bytes));
    SentOuts(bytes);
    assert Sent(last) == [] by { assert last[1..] == []; }
    assert Sent(first) == [] by { assert first[1..] == []; }
  }

  /** The master: the SS port register the caller hands over by pointer,
      and the log of everything written to it and to the data register. */
  class Master {
    var port: bv8
    var log: seq<Event>

    constructor (initialPort: bv8)
      ensures port == initialPort && log == []
    {
      port := initialPort;
      log := [];
    }

    /** `*SS_PORTx = level` */
    method SetPort(level: bv8)
      modifies this
      ensures port == level
      ensures log == old(log) + [Select(level)]
    {
      port := level;
      log := log + [Select(level)];
    }

    /** SPI_masterPutUint8_t / SPI_masterPutChar: write b to SPDR and wait
      for the transfer to complete. */
    method Put(b: Byte)
      modifies this
      ensures port == old(port)
      ensures log == old(log) + [Out(b)]
    {
      log := log + [Out(b)];
    }
  }
}
