/** The bus engine of the bit-banged two-wire master (firmware/main.c):
    framing, bit and byte transfer, the multi-byte write and read
    transactions with their abort paths, and the diagnostic address scan.

    The engine is a class that records every line-driver call in a history.
    The level the devices present on SDA when the master samples it is an
    oracle: a function of the history so far. Each transaction is specified
    by a pure function that computes, from the oracle and the history, the
    bus events the transaction consists of; the methods are proved to make
    exactly the line calls of those events (`Replay`), and the lemmas of
    I2cTxn state what the events are. */
module I2cBus {
  import opened Bits
  import opened Logs
  import opened I2cLine

  /** The SDA level the devices present at a sample, given the line calls
      made before it. */
  type Peer = Log<LineOp> -> bit

  /** The level a bit read begun after history `h` samples: the read
      releases SDA and raises the clock before sampling. */
  function Probe(peer: Peer, h: Log<LineOp>): bit
  {
    peer(Then(Then(h, Release), Scl(true)))
  }

  /** One framing condition or one byte transferred on the bus. A sent byte
      records the acknowledge bit read after it (0 = ACK); a received byte
      records its value and whether the master acknowledged it. */
  datatype Event =
    | StartCond
    | StopCond
    | Tx(value: byte, ack: bit)
    | Rx(value: byte, sendAck: bool)

  /** The bit the master clocks out after a received byte: 0 (ACK) when it
      wants more, 1 (NACK) after the last. */
  function AckBit(sendAck: bool): bit
  {
    if sendAck then 0 else 1
  }

  /** History `h` followed by the line calls of event `e`. */
  function EventOn(h: Log<LineOp>, e: Event): Log<LineOp>
  {
    match e
    case StartCond => StartOn(h)
    case StopCond => StopOn(h)
    case Tx(v, a) => ReadBitOn(WriteLowOn(h, v, 8), a)
    case Rx(v, sendAck) => WriteBitOn(ReadLowOn(h, v, 8), AckBit(sendAck))
  }

  /** The line calls of one event, as a sequence. */
  function EventOps(e: Event): seq<LineOp>
  {
    match e
    case StartCond => StartOps
    case StopCond => StopOps
    case Tx(v, a) => ByteOps(v) + ReadBitOps(a)
    case Rx(v, sendAck) => ReadBitsOps(MsbBits(v)) + WriteBitOps(AckBit(sendAck))
  }

  lemma EventOnItems(h: Log<LineOp>, e: Event)
    ensures Items(EventOn(h, e)) == Items(h) + EventOps(e)
  {
    match e
    case StartCond => OnItems(h, 0);
    case StopCond => OnItems(h, 0);
    case Tx(v, a) =>
      WriteLowOnItems(h, v, 8);
      OnItems(WriteLowOn(h, v, 8), a);
      AppendAssoc(Items(h), ByteOps(v), ReadBitOps(a));
    case Rx(v, sendAck) =>
      ReadLowOnItems(h, v, 8);
      OnItems(ReadLowOn(h, v, 8), AckBit(sendAck));
      AppendAssoc(Items(h), ReadBitsOps(MsbBits(v)), WriteBitOps(AckBit(sendAck)));
  }

  /** The history after the events `evs`, begun after history `h`. */
  function Replay(h: Log<LineOp>, evs: Log<Event>): Log<LineOp>
  {
    match evs
    case Empty => h
    case Then(init, e) => EventOn(Replay(h, init), e)
  }

  /** The line calls of a run of events, oldest first. */
  function Flatten(evs: Log<Event>): seq<LineOp>
  {
    match evs
    case Empty => []
    case Then(init, e) => Flatten(init) + EventOps(e)
  }

  /** Replaying events appends exactly their line calls to the history. */
  lemma {:induction false} ReplayItems(h: Log<LineOp>, evs: Log<Event>)
    ensures Items(Replay(h, evs)) == Items(h) + Flatten(evs)
  {
    match evs
    case Empty =>
    case Then(init, e) =>
      ReplayItems(h, init);
      EventOnItems(Replay(h, init), e);
      AppendAssoc(Items(h), Flatten(init), EventOps(e));
  }

  /** The byte `(addr7 << 1) | rw` as passed to the `uint8_t` parameter of
      the byte writer: the address lands in bits 7..1 (its top bit is shifted
      out) and the direction in bit 0. */
  function AddrByte(addr7: byte, rw: bit): (b: byte)
    ensures b / 2 == addr7 % 128 && b % 2 == rw
  {
    (addr7 * 2) % 256 + rw
  }

  /** Sending `v` after history `h`: the acknowledge bit is the level the
      devices present at the ninth clock. */
  function TxEvent(peer: Peer, h: Log<LineOp>, v: byte): (e: Event)
    ensures e.Tx? && e.value == v
  {
    Tx(v, Probe(peer, WriteLowOn(h, v, 8)))
  }

  /** The value formed by the first `k` bits read after `h`, first bit
      most significant: each bit is the level sampled after the reads of
      the bits before it. */
  function ReadValue(peer: Peer, h: Log<LineOp>, k: nat): (v: nat)
    ensures v < Pow2(k)
  {
    if k == 0 then 0
    else
      var p := ReadValue(peer, h, k - 1);
      2 * p + Probe(peer, ReadLowOn(h, p, k - 1))
  }

  /** One more bit read, bit `i` of the byte: the value gains the level
      sampled as its new low bit, the accumulator of `i2c_read_byte` that
      bit at place `i`, and the history that read. */
  lemma ReadByteStep(peer: Peer, h: Log<LineOp>, k: nat, i: nat, acc: nat)
    requires k + i == 7 && acc == Shl(ReadValue(peer, h, k), i + 1)
    ensures var p := ReadValue(peer, h, k);
            var b := Probe(peer, ReadLowOn(h, p, k));
            acc + Shl(b, i) == Shl(ReadValue(peer, h, k + 1), i) &&
            ReadLowOn(h, ReadValue(peer, h, k + 1), k + 1) == ReadBitOn(ReadLowOn(h, p, k), b)
  {
    var p := ReadValue(peer, h, k);
    var b := Probe(peer, ReadLowOn(h, p, k));
    ReadValueStep(peer, h, k);
    ShlStep(p, b, i);
  }

  lemma ReadValueStep(peer: Peer, h: Log<LineOp>, k: nat)
    ensures var p := ReadValue(peer, h, k);
            var b := Probe(peer, ReadLowOn(h, p, k));
            ReadValue(peer, h, k + 1) == 2 * p + b &&
            ReadLowOn(h, 2 * p + b, k + 1) == ReadBitOn(ReadLowOn(h, p, k), b)
  {
    var p := ReadValue(peer, h, k);
    var b := Probe(peer, ReadLowOn(h, p, k));
    assert (2 * p + b) / 2 == p && (2 * p + b) % 2 == b;
  }

  /** Receiving one byte after history `h`. */
  function RxEvent(peer: Peer, h: Log<LineOp>, sendAck: bool): (e: Event)
    ensures e.Rx? && e.sendAck == sendAck
  {
    Rx(ReadValue(peer, h, 8), sendAck)
  }

  /** The byte received is the value of its eight bit reads, which the
      acknowledge bit follows. */
  lemma RxEventOn(peer: Peer, h: Log<LineOp>, sendAck: bool)
    ensures var w := ReadValue(peer, h, 8);
            var e := RxEvent(peer, h, sendAck);
            e.value == w && Shl(w, 0) == w &&
            EventOn(h, e) == WriteBitOn(ReadLowOn(h, w, 8), AckBit(sendAck))
  {
  }

  /** The byte read after `h` is the number whose binary digits, most
      significant first, are the eight levels recorded as sampled: the
      sum of `b_i << i` over the bits read, bit 7 first. */
  lemma ReadValueSamples(peer: Peer, h: Log<LineOp>, k: nat)
    ensures var v := ReadValue(peer, h, k);
            Samples(Items(ReadLowOn(h, v, k))) == Samples(Items(h)) + LowBits(v, k) &&
            FromMsb(LowBits(v, k)) == v
  {
    var v := ReadValue(peer, h, k);
    ReadLowOnItems(h, v, k);
    SamplesAppend(Items(h), ReadBitsOps(LowBits(v, k)));
    SamplesOfReads(LowBits(v, k));
    FromMsbOfLowBits(v, k);
  }

  /** No sent byte of `evs` was refused. */
  predicate AllAcked(evs: Log<Event>)
  {
    match evs
    case Empty => true
    case Then(init, e) => AllAcked(init) && (e.Tx? ==> e.ack == 0)
  }

  /** The values of the received bytes of `evs`, in order. */
  function RxValues(evs: Log<Event>): seq<byte>
  {
    match evs
    case Empty => []
    case Then(init, e) => RxValues(init) + (if e.Rx? then [e.value] else [])
  }

  /** START followed by the address byte with direction bit `rw`. */
  function AddrEvents(peer: Peer, h: Log<LineOp>, addr7: byte, rw: bit): Log<Event>
  {
    Then(Then(Empty, StartCond), TxEvent(peer, StartOn(h), AddrByte(addr7, rw)))
  }

  /** The events of a write transaction from data byte `i` on, after the
      events `acc` that left the history `h`: each byte is sent in turn, and
      the first refused byte ends the transaction with a STOP. */
  function WriteFrom(peer: Peer, h: Log<LineOp>, data: seq<byte>, i: nat, acc: Log<Event>): (r: Log<Event>)
    ensures r.Then? && r.last == StopCond
    decreases |data| - i
  {
    if i >= |data| then Then(acc, StopCond)
    else
      var e := TxEvent(peer, h, data[i]);
      if e.ack != 0 then Then(Then(acc, e), StopCond)
      else WriteFrom(peer, EventOn(h, e), data, i + 1, Then(acc, e))
  }

  /** `i2c_write_bytes`: START, the address with the write bit, then the data
      bytes; a refused address ends the transaction at once with a STOP. */
  function WriteTxn(peer: Peer, h: Log<LineOp>, addr7: byte, data: seq<byte>): (r: Log<Event>)
    ensures r.Then? && r.last == StopCond
  {
    var head := AddrEvents(peer, h, addr7, 0);
    if head.last.ack != 0 then Then(head, StopCond)
    else WriteFrom(peer, Replay(h, head), data, 0, head)
  }

  /** The events of a read transaction from byte `i` of `len` on, after the
      events `acc` that left the history `h`: the master ACKs every byte but
      the last, then sends STOP. */
  function ReadFrom(peer: Peer, h: Log<LineOp>, len: nat, i: nat, acc: Log<Event>): (r: Log<Event>)
    ensures r.Then? && r.last == StopCond
    decreases len - i
  {
    if i >= len then Then(acc, StopCond)
    else
      var e := RxEvent(peer, h, i + 1 < len);
      ReadFrom(peer, EventOn(h, e), len, i + 1, Then(acc, e))
  }

  /** `i2c_read_bytes`: START, the address with the read bit, then `len`
      received bytes; a refused address ends the transaction with a STOP. */
  function ReadTxn(peer: Peer, h: Log<LineOp>, addr7: byte, len: nat): (r: Log<Event>)
    ensures r.Then? && r.last == StopCond
  {
    var head := AddrEvents(peer, h, addr7, 1);
    if head.last.ack != 0 then Then(head, StopCond)
    else ReadFrom(peer, Replay(h, head), len, 0, head)
  }

  /** One received byte of a read transaction: the transaction goes on
      after it, and it adds its value and no refusal. */
  lemma ReadStep(peer: Peer, h: Log<LineOp>, len: nat, i: nat, acc: Log<Event>)
    requires i < len
    ensures var e := RxEvent(peer, h, i + 1 < len);
            ReadFrom(peer, h, len, i, acc) == ReadFrom(peer, EventOn(h, e), len, i + 1, Then(acc, e)) &&
            RxValues(Then(acc, e)) == RxValues(acc) + [e.value] &&
            AllAcked(Then(acc, e)) == AllAcked(acc)
  {
  }

  /** The end of a read transaction: STOP, which adds no value and no
      refusal. */
  lemma ReadStop(peer: Peer, h: Log<LineOp>, len: nat, acc: Log<Event>)
    ensures ReadFrom(peer, h, len, len, acc) == Then(acc, StopCond)
    ensures RxValues(Then(acc, StopCond)) == RxValues(acc)
    ensures AllAcked(Then(acc, StopCond)) == AllAcked(acc)
  {
  }

  /** The first address the scan probes, and the one past the last. */
  const ScanFirst := 0x03
  const ScanEnd := 0x78

  /** Each probe of the scan framed by its START and STOP. */
  function Probes(txs: Log<Event>): Log<Event>
  {
    match txs
    case Empty => Empty
    case Then(init, t) => Then(Then(Then(Probes(init), StartCond), t), StopCond)
  }

  /** The address bytes `i2c_scan` sends from address `addr` on, after the
      probes `acc` that left the history `h`. */
  function ScanFrom(peer: Peer, h: Log<LineOp>, addr: nat, acc: Log<Event>): (r: Log<Event>)
    ensures forall x :: x in Responders(r) ==> x in Responders(acc) || addr <= x < ScanEnd
    decreases ScanEnd - addr
  {
    if addr >= ScanEnd then acc
    else
      var t := TxEvent(peer, StartOn(h), addr * 2);
      assert t.value / 2 == addr;
      ScanFrom(peer, StopOn(EventOn(StartOn(h), t)), addr + 1, Then(acc, t))
  }

  /** The address bytes of a whole scan begun after history `h`. */
  function ScanTxs(peer: Peer, h: Log<LineOp>): (r: Log<Event>)
    ensures forall x :: x in Responders(r) ==> ScanFirst <= x < ScanEnd
  {
    ScanFrom(peer, h, ScanFirst, Empty)
  }

  /** The addresses whose probe was acknowledged, in the order probed. */
  function Responders(txs: Log<Event>): seq<int>
  {
    match txs
    case Empty => []
    case Then(init, t) => Responders(init) + (if t.Tx? && t.ack == 0 then [t.value / 2] else [])
  }

  /** The history after one more framed probe. */
  lemma ReplayProbe(h: Log<LineOp>, txs: Log<Event>, t: Event)
    ensures Replay(h, Probes(Then(txs, t))) == StopOn(EventOn(StartOn(Replay(h, Probes(txs))), t))
  {
    var p := Probes(txs);
    assert Replay(h, Then(p, StartCond)) == StartOn(Replay(h, p));
    assert Replay(h, Then(Then(p, StartCond), t)) == EventOn(StartOn(Replay(h, p)), t);
  }

  /** One probe of the scan: it advances the scan by one address and adds
      that address to the responders exactly when it was acknowledged. */
  lemma ScanStep(peer: Peer, h: Log<LineOp>, addr: nat, acc: Log<Event>)
    requires addr < ScanEnd
    ensures var t := TxEvent(peer, StartOn(h), addr * 2);
            ScanFrom(peer, h, addr, acc) == ScanFrom(peer, StopOn(EventOn(StartOn(h), t)), addr + 1, Then(acc, t)) &&
            Responders(Then(acc, t)) == Responders(acc) + (if t.ack == 0 then [addr] else [])
  {
    var t := TxEvent(peer, StartOn(h), addr * 2);
    assert t.value / 2 == addr;
  }

  class Bus {
    /** Every line-driver call made so far, in order. */
    var ops: Log<LineOp>
    /** The devices on the bus, as seen through SDA. */
    const peer: Peer

    constructor (peer: Peer)
      ensures this.peer == peer && ops == Empty
    {
      this.peer := peer;
      ops := Empty;
    }

    /** `i2c_release_sda` */
    method ReleaseSda()
      modifies this
      ensures ops == Then(old(ops), Release)
    {
      ops := Then(ops, Release);
    }

    /** `i2c_drive_sda_low` */
    method DriveSdaLow()
      modifies this
      ensures ops == Then(old(ops), DriveLow)
    {
      ops := Then(ops, DriveLow);
    }

    /** `i2c_set_scl`: any non-zero level raises the clock. */
    method SetScl(level: byte)
      modifies this
      ensures ops == Then(old(ops), Scl(level != 0))
    {
      ops := Then(ops, Scl(level != 0));
    }

    /** `i2c_r_sda`: bit 0 of the read register, the level the devices present. */
    method ReadSda() returns (b: bit)
      modifies this
      ensures b == peer(old(ops)) && ops == Then(old(ops), Sampled(b))
    {
      b := peer(ops);
      ops := Then(ops, Sampled(b));
    }

    /** `i2c_start` */
    method Start()
      modifies this
      ensures ops == StartOn(old(ops))
    {
      ReleaseSda();
      SetScl(1);
      DriveSdaLow();
      SetScl(0);
    }

    /** `i2c_stop` */
    method Stop()
      modifies this
      ensures ops == StopOn(old(ops))
    {
      DriveSdaLow();
      SetScl(1);
      ReleaseSda();
    }

    /** `i2c_write_bit` (the first definition): any non-zero value is a 1. */
    method WriteBit(b: byte)
      modifies this
      ensures ops == WriteBitOn(old(ops), if b != 0 then 1 else 0)
    {
      if b != 0 {
        ReleaseSda();
      } else {
        DriveSdaLow();
      }
      SetScl(1);
      SetScl(0);
    }

    /** `i2c_read_bit` */
    method ReadBit() returns (b: bit)
      modifies this
      ensures b == Probe(peer, old(ops)) && ops == ReadBitOn(old(ops), b)
    {
      ReleaseSda();
      SetScl(1);
      b := ReadSda();
      SetScl(0);
    }

    /** `i2c_write_byte`: bits 7 down to 0, then one acknowledge read;
        0 on ACK, -1 on NACK. */
    method WriteByte(v: byte) returns (r: int)
      modifies this
      ensures ops == EventOn(old(ops), TxEvent(peer, old(ops), v))
      ensures r == (if TxEvent(peer, old(ops), v).ack == 0 then 0 else -1)
    {
      ghost var h := ops;
      var i := 7;
      while i >= 0
        invariant -1 <= i <= 7
        invariant ops == WriteLowOn(h, Shr(v, i + 1), 7 - i)
        decreases i + 1
      {
        ShrStep(v, i);
        WriteBit(BitOf(v, i));
        i := i - 1;
      }
      var ack := ReadBit();
      r := if ack == 0 then 0 else -1;
    }

    /** `i2c_read_byte`: eight bit reads, bit 7 first, each or-ed into the
        result at its place; then an ACK (0) if `sendAck`, else a NACK (1). */
    method ReadByte(sendAck: bool) returns (v: byte)
      modifies this
      ensures ops == EventOn(old(ops), RxEvent(peer, old(ops), sendAck))
      ensures v == RxEvent(peer, old(ops), sendAck).value
    {
      ghost var h := ops;
      ghost var k: nat := 0;
      var acc := 0;
      var i := 7;
      while i >= 0
        invariant -1 <= i <= 7 && k == 7 - i
        invariant ops == ReadLowOn(h, ReadValue(peer, h, k), k)
        invariant acc == Shl(ReadValue(peer, h, k), i + 1)
        decreases i + 1
      {
        var b := ReadBit();
        ReadByteStep(peer, h, k, i, acc);
        acc := acc + Shl(b, i);
        i := i - 1;
        k := k + 1;
      }
      RxEventOn(peer, h, sendAck);
      WriteBit(if sendAck then 0 else 1);
      v := acc;
    }

    /** START and the address byte, common to both transactions. */
    method Address(addr7: byte, rw: bit) returns (ack: int)
      modifies this
      ensures ops == Replay(old(ops), AddrEvents(peer, old(ops), addr7, rw))
      ensures ack == (if AddrEvents(peer, old(ops), addr7, rw).last.ack == 0 then 0 else -1)
    {
      ghost var h := ops;
      Start();
      ack := WriteByte(AddrByte(addr7, rw));
      assert Replay(h, Then(Empty, StartCond)) == StartOn(h);
    }

    /** `i2c_write_bytes`: 0 when the address and every data byte were
        acknowledged, -1 otherwise. */
    method WriteBytes(addr7: byte, data: seq<byte>) returns (r: int)
      modifies this
      ensures ops == Replay(old(ops), WriteTxn(peer, old(ops), addr7, data))
      ensures r == (if AllAcked(WriteTxn(peer, old(ops), addr7, data)) then 0 else -1)
    {
      ghost var h0 := ops;
      ghost var evs := AddrEvents(peer, h0, addr7, 0);
      var ack := Address(addr7, 0);
      if ack < 0 {
        Stop();
        return -1;
      }
      var i := 0;
      while i < |data|
        invariant 0 <= i <= |data|
        invariant ops == Replay(h0, evs) && AllAcked(evs)
        invariant WriteTxn(peer, h0, addr7, data) == WriteFrom(peer, ops, data, i, evs)
        decreases |data| - i
      {
        ghost var e := TxEvent(peer, ops, data[i]);
        ack := WriteByte(data[i]);
        if ack < 0 {
          Stop();
          return -1;
        }
        evs := Then(evs, e);
        i := i + 1;
      }
      Stop();
      r := 0;
    }

    /** `i2c_read_bytes`: on an acknowledged address, fills `buf[0..len)`
        with the received bytes and returns 0; otherwise returns -1 and
        leaves `buf` alone. */
    method ReadBytes(addr7: byte, buf: array<byte>, len: nat) returns (r: int)
      requires len <= buf.Length
      modifies this, buf
      ensures ops == Replay(old(ops), ReadTxn(peer, old(ops), addr7, len))
      ensures r == (if AllAcked(ReadTxn(peer, old(ops), addr7, len)) then 0 else -1)
      ensures r == 0 ==> buf[..len] == RxValues(ReadTxn(peer, old(ops), addr7, len))
      ensures r != 0 ==> buf[..] == old(buf[..])
      ensures buf[len..] == old(buf[len..])
    {
      ghost var h0 := ops;
      ghost var evs := AddrEvents(peer, h0, addr7, 1);
      var ack := Address(addr7, 1);
      if ack < 0 {
        Stop();
        return -1;
      }
      var i := 0;
      while i < len
        invariant 0 <= i <= len
        invariant ops == Replay(h0, evs) && AllAcked(evs)
        invariant RxValues(evs) == buf[..i]
        invariant buf[i..] == old(buf[i..])
        invariant ReadTxn(peer, h0, addr7, len) == ReadFrom(peer, ops, len, i, evs)
        decreases len - i
      {
        ghost var e := RxEvent(peer, ops, i + 1 < len);
        ReadStep(peer, ops, len, i, evs);
        var v := ReadByte(i + 1 < len);
        buf[i] := v;
        assert buf[..i + 1] == buf[..i] + [v];
        assert buf[i + 1..] == old(buf[i + 1..]) by {
          assert buf[i + 1..] == buf[i..][1..];
          assert old(buf[i + 1..]) == old(buf[i..])[1..];
        }
        evs := Then(evs, e);
        i := i + 1;
      }
      ReadStop(peer, ops, len, evs);
      Stop();
      r := 0;
    }

    /** One probe of the scan: START, the address with the write bit, STOP. */
    method ProbeAddress(addr: nat) returns (ack: int)
      requires addr < ScanEnd
      modifies this
      ensures ops == StopOn(EventOn(StartOn(old(ops)), TxEvent(peer, StartOn(old(ops)), addr * 2)))
      ensures ack == (if TxEvent(peer, StartOn(old(ops)), addr * 2).ack == 0 then 0 else -1)
    {
      Start();
      ack := WriteByte(addr * 2);
      Stop();
    }

    /** `i2c_scan`: probes addresses 0x03..0x77 with a write-direction
        address byte each, and reports those that answered and how many. */
    method Scan() returns (addrs: seq<int>, found: nat)
      modifies this
      ensures ops == Replay(old(ops), Probes(ScanTxs(peer, old(ops))))
      ensures addrs == Responders(ScanTxs(peer, old(ops))) && found == |addrs|
    {
      ghost var h0 := ops;
      ghost var done: Log<Event> := Empty;
      ghost var all := ScanTxs(peer, h0);
      addrs := [];
      found := 0;
      var addr := ScanFirst;
      while addr < ScanEnd
        invariant ScanFirst <= addr <= ScanEnd
        invariant ops == Replay(h0, Probes(done))
        invariant addrs == Responders(done) && found == |addrs|
        invariant all == ScanFrom(peer, ops, addr, done)
        decreases ScanEnd - addr
      {
        ghost var t := TxEvent(peer, StartOn(ops), addr * 2);
        ReplayProbe(h0, done, t);
        ScanStep(peer, ops, addr, done);
        var ack := ProbeAddress(addr);
        if ack == 0 {
          addrs := addrs + [addr];
          found := found + 1;
        }
        done := Then(done, t);
        addr := addr + 1;
      }
    }
  }
}
