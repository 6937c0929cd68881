/** The SX127x/RFM95 LoRa driver (hardware/firmware/lora_RFM95.c): register
    access framed by chip select over a byte-exchange SPI link, operating
    mode control, initialisation with the identity check and the frequency
    synthesiser, and the transmit state machine with its bounded poll.

    The driver keeps no copy of the radio's registers; what it does is the
    sequence of events on the SPI link. The radio's side of that link is an
    oracle: the byte it shifts out on MISO during an exchange is a function
    of everything on the link before that exchange and of the byte coming
    in on MOSI. Each operation is specified by a pure function computing,
    from the oracle and the link's history, the chip-select frames it
    consists of; the methods of `Radio` are proved to put exactly those
    frames on the link, and the lemmas say what the frames are. */
module Rfm95 {
  import opened Bits

  // Register addresses
  const RegFifo: byte := 0x00
  const RegOpMode: byte := 0x01
  const RegFrfMsb: byte := 0x06
  const RegFrfMid: byte := 0x07
  const RegFrfLsb: byte := 0x08
  const RegPaConfig: byte := 0x09
  const RegOcp: byte := 0x0B
  const RegLna: byte := 0x0C
  const RegFifoAddrPtr: byte := 0x0D
  const RegFifoTxBaseAddr: byte := 0x0E
  const RegFifoRxBaseAddr: byte := 0x0F
  const RegIrqFlagsMask: byte := 0x11
  const RegIrqFlags: byte := 0x12
  const RegModemConfig1: byte := 0x1D
  const RegModemConfig2: byte := 0x1E
  const RegPreambleMsb: byte := 0x20
  const RegPreambleLsb: byte := 0x21
  const RegPayloadLength: byte := 0x22
  const RegModemConfig3: byte := 0x26
  const RegSyncWord: byte := 0x39
  const RegDioMapping1: byte := 0x40
  const RegVersion: byte := 0x42
  const RegPaDac: byte := 0x4D

  // Operating modes (the low bits of RegOpMode)
  const ModeSleep: byte := 0x00
  const ModeStdby: byte := 0x01
  const ModeTx: byte := 0x03

  const IrqTxDoneMask: byte := 0x08
  /** The chip signature RegVersion must hold. */
  const ChipVersion: byte := 0x12
  /** The number of RegIrqFlags polls `lora_send_bytes` allows, one per
      millisecond of wait. */
  const TxTimeoutMs: nat := 5000

  /** One event on the SPI link: chip select asserted, released, or one
      full-duplex byte exchange. */
  datatype SpiEvent = Select | Deselect | Exchange(mosi: byte, miso: byte)

  /** The radio as seen from the link: the MISO byte of an exchange, given
      everything on the link before it and the MOSI byte. */
  type Chip = (seq<SpiEvent>, byte) -> byte

  /** `reg & 0x7F`: the address byte of a read, write flag (bit 7) clear. */
  function ReadAddr(reg: byte): (a: byte)
    ensures a < 0x80 && a % 0x80 == reg % 0x80
  {
    reg % 0x80
  }

  /** `b | 0x80`: bit 7 set, the other bits kept. It is the address byte of
      a write, and the RegOpMode value `lora_set_mode` writes. */
  function SetBit7(b: byte): (a: byte)
    ensures a >= 0x80 && a % 0x80 == b % 0x80
  {
    if b >= 0x80 then b else b + 0x80
  }

  // ---------------------------------------------------------------------
  // Frames

  /** The exchanges of the MOSI bytes `m` begun after history `h`: each
      sends its byte and receives the radio's answer to it. */
  function Xfer(chip: Chip, h: seq<SpiEvent>, m: seq<byte>): (x: seq<SpiEvent>)
    ensures |x| == |m|
    decreases |m|
  {
    if m == [] then []
    else
      var p := Xfer(chip, h, m[..|m| - 1]);
      p + [Exchange(m[|m| - 1], chip(h + p, m[|m| - 1]))]
  }

  /** Exchange `k` sends byte `k` and receives the radio's answer to it,
      given everything before it. */
  lemma {:induction false} XferAt(chip: Chip, h: seq<SpiEvent>, m: seq<byte>)
    ensures var x := Xfer(chip, h, m);
            forall k :: 0 <= k < |m| ==> x[k] == Exchange(m[k], chip(h + x[..k], m[k]))
    decreases |m|
  {
    if m != [] {
      var p := Xfer(chip, h, m[..|m| - 1]);
      var x := Xfer(chip, h, m);
      XferAt(chip, h, m[..|m| - 1]);
      assert x == p + [Exchange(m[|m| - 1], chip(h + p, m[|m| - 1]))];
      forall k | 0 <= k < |m|
        ensures x[k] == Exchange(m[k], chip(h + x[..k], m[k]))
      {
        assert x[..k] == p[..k] by {
          assert x[..|p|] == p;
        }
      }
    }
  }

  /** One chip-select frame carrying the MOSI bytes `m`, after history `h`:
      select, one exchange per byte in order, deselect. */
  function FrameOn(chip: Chip, h: seq<SpiEvent>, m: seq<byte>): (f: seq<SpiEvent>)
    ensures |f| == |m| + 2
  {
    [Select] + Xfer(chip, h + [Select], m) + [Deselect]
  }

  /** A frame is chip select, then the bytes of `m` in order, each answered
      by the radio given everything on the link before it, then release. */
  lemma FrameShape(chip: Chip, h: seq<SpiEvent>, m: seq<byte>)
    ensures var f := FrameOn(chip, h, m);
            f[0] == Select && f[|f| - 1] == Deselect &&
            forall k :: 1 <= k <= |m| ==> f[k] == Exchange(m[k - 1], chip(h + f[..k], m[k - 1]))
  {
    var x := Xfer(chip, h + [Select], m);
    var f := FrameOn(chip, h, m);
    XferAt(chip, h + [Select], m);
    forall k | 1 <= k <= |m|
      ensures f[k] == Exchange(m[k - 1], chip(h + f[..k], m[k - 1]))
    {
      assert f[k] == x[k - 1];
      assert f[..k] == [Select] + x[..k - 1];
      assert h + f[..k] == (h + [Select]) + x[..k - 1];
    }
  }

  /** A frame of two MOSI bytes, written out: select, the two exchanges,
      release. Every register access is one. */
  function RegFrame(chip: Chip, h: seq<SpiEvent>, b0: byte, b1: byte): seq<SpiEvent>
  {
    var x0 := chip(h + [Select], b0);
    [Select, Exchange(b0, x0), Exchange(b1, chip(h + [Select, Exchange(b0, x0)], b1)), Deselect]
  }

  lemma Frame2(chip: Chip, h: seq<SpiEvent>, b0: byte, b1: byte)
    ensures FrameOn(chip, h, [b0, b1]) == RegFrame(chip, h, b0, b1)
  {
    var h1 := h + [Select];
    var x0 := chip(h1, b0);
    assert [b0, b1][..1] == [b0];
    assert [b0][..0] == [];
    assert h1 + [] == h1;
    assert Xfer(chip, h1, [b0]) == [Exchange(b0, x0)];
    assert h1 + [Exchange(b0, x0)] == h + [Select, Exchange(b0, x0)];
    assert Xfer(chip, h1, [b0, b1]) == [Exchange(b0, x0), Exchange(b1, chip(h + [Select, Exchange(b0, x0)], b1))];
  }

  /** The MOSI bytes of a run of events, in order. */
  function MosiOf(evs: seq<SpiEvent>): seq<byte>
  {
    if evs == [] then []
    else
      var e := evs[|evs| - 1];
      MosiOf(evs[..|evs| - 1]) + (if e.Exchange? then [e.mosi] else [])
  }

  lemma MosiOfSnoc(evs: seq<SpiEvent>, e: SpiEvent)
    ensures MosiOf(evs + [e]) == MosiOf(evs) + (if e.Exchange? then [e.mosi] else [])
  {
    assert (evs + [e])[..|evs|] == evs;
  }

  /** Exchanges carry exactly their MOSI bytes. */
  lemma {:induction false} MosiOfXfer(chip: Chip, h: seq<SpiEvent>, m: seq<byte>)
    ensures MosiOf(Xfer(chip, h, m)) == m
    decreases |m|
  {
    if m != [] {
      var p := Xfer(chip, h, m[..|m| - 1]);
      MosiOfXfer(chip, h, m[..|m| - 1]);
      MosiOfSnoc(p, Exchange(m[|m| - 1], chip(h + p, m[|m| - 1])));
    }
  }

  /** A frame carries exactly the bytes it was built from. */
  lemma MosiOfFrame(chip: Chip, h: seq<SpiEvent>, m: seq<byte>)
    ensures MosiOf(FrameOn(chip, h, m)) == m
  {
    var x := Xfer(chip, h + [Select], m);
    MosiOfXfer(chip, h + [Select], m);
    MosiOfSnoc([], Select);
    MosiOfAppend([Select], x);
    MosiOfSnoc([Select] + x, Deselect);
  }

  lemma {:induction false} MosiOfAppend(a: seq<SpiEvent>, b: seq<SpiEvent>)
    ensures MosiOf(a + b) == MosiOf(a) + MosiOf(b)
    decreases |b|
  {
    if b != [] {
      var p, e := b[..|b| - 1], b[|b| - 1];
      var t: seq<byte> := if e.Exchange? then [e.mosi] else [];
      calc {
        MosiOf(a + b);
        { assert a + b == (a + p) + [e]; }
        MosiOf((a + p) + [e]);
        { MosiOfSnoc(a + p, e); }
        MosiOf(a + p) + t;
        { MosiOfAppend(a, p); }
        (MosiOf(a) + MosiOf(p)) + t;
        MosiOf(a) + (MosiOf(p) + t);
        { MosiOfSnoc(p, e); assert b == p + [e]; }
        MosiOf(a) + MosiOf(b);
      }
    } else {
      assert a + b == a;
    }
  }

  /** The events of a run of frames, in order. */
  function Concat(fs: seq<seq<SpiEvent>>): seq<SpiEvent>
  {
    if fs == [] then [] else Concat(fs[..|fs| - 1]) + fs[|fs| - 1]
  }

  lemma {:induction false} ConcatAppend(a: seq<seq<SpiEvent>>, b: seq<seq<SpiEvent>>)
    ensures Concat(a + b) == Concat(a) + Concat(b)
    decreases |b|
  {
    if b == [] {
      assert a + b == a;
    } else {
      var p, f := b[..|b| - 1], b[|b| - 1];
      assert a + b == (a + p) + [f];
      ConcatAppend(a, p);
      ConcatSnoc(a + p, f);
      ConcatSnoc(p, f);
      assert b == p + [f];
    }
  }

  /** Two elements appended one at a time are the two appended at once. */
  lemma Snoc2<T>(p: seq<T>, x: T, y: T)
    ensures p + [x] + [y] == p + [x, y]
  {
    assert (p + [x] + [y])[|p|..] == [x, y];
  }

  /** Three elements appended one at a time are the three appended at once. */
  lemma Snoc3<T>(p: seq<T>, x: T, y: T, z: T)
    ensures p + [x] + [y] + [z] == p + [x, y, z]
  {
    assert (p + [x] + [y] + [z])[|p|..] == [x, y, z];
  }

  /** Four elements appended one at a time are the four appended at once. */
  lemma Snoc4<T>(p: seq<T>, w: T, x: T, y: T, z: T)
    ensures p + [w] + [x] + [y] + [z] == p + [w, x, y, z]
  {
    assert (p + [w] + [x] + [y] + [z])[|p|..] == [w, x, y, z];
  }

  /** Three sequences appended one at a time are their concatenation appended. */
  lemma Append3<T>(p: seq<T>, a: seq<T>, b: seq<T>, c: seq<T>)
    ensures p + a + b + c == p + (a + b + c)
  {
  }

  lemma ConcatSnoc(fs: seq<seq<SpiEvent>>, f: seq<SpiEvent>)
    ensures Concat(fs + [f]) == Concat(fs) + f
  {
    assert (fs + [f])[..|fs|] == fs;
  }

  /** The frames carrying the MOSI frames `ms` in turn, after history `h`. */
  function Frames(chip: Chip, h: seq<SpiEvent>, ms: seq<seq<byte>>): (fs: seq<seq<SpiEvent>>)
    ensures |fs| == |ms|
    decreases |ms|
  {
    if ms == [] then []
    else
      var p := Frames(chip, h, ms[..|ms| - 1]);
      p + [FrameOn(chip, h + Concat(p), ms[|ms| - 1])]
  }

  /** One more frame of a run. */
  lemma FramesSnoc(chip: Chip, h: seq<SpiEvent>, pre: seq<seq<byte>>, m: seq<byte>)
    ensures Concat(Frames(chip, h, pre + [m])) ==
            Concat(Frames(chip, h, pre)) + FrameOn(chip, h + Concat(Frames(chip, h, pre)), m)
  {
    assert (pre + [m])[..|pre|] == pre;
    ConcatSnoc(Frames(chip, h, pre), FrameOn(chip, h + Concat(Frames(chip, h, pre)), m));
  }

  /** A register write after a run of frames extends the run. */
  lemma RunSnocWrite(chip: Chip, h: seq<SpiEvent>, pre: seq<seq<byte>>, reg: byte, value: byte)
    ensures var x := h + Concat(Frames(chip, h, pre));
            h + Concat(Frames(chip, h, pre + [WriteMosi(reg, value)])) == x + WriteOn(chip, x, reg, value)
  {
    var x := h + Concat(Frames(chip, h, pre));
    FramesSnoc(chip, h, pre, WriteMosi(reg, value));
    RegisterFrames(chip, x, reg, value);
  }

  /** Every frame of `fs` is the radio's genuine response to its own MOSI
      bytes, given `h` and the frames before it. */
  ghost predicate Chained(chip: Chip, h: seq<SpiEvent>, fs: seq<seq<SpiEvent>>)
  {
    forall k :: 0 <= k < |fs| ==> ChainedAt(chip, h, fs, k)
  }

  /** Frame `k` of `fs` is the radio's response to its MOSI bytes after `h`
      and the frames before it. */
  ghost predicate ChainedAt(chip: Chip, h: seq<SpiEvent>, fs: seq<seq<SpiEvent>>, k: nat)
    requires k < |fs|
  {
    fs[k] == FrameOn(chip, h + Concat(fs[..k]), MosiOf(fs[k]))
  }

  lemma ChainedSnoc(chip: Chip, h: seq<SpiEvent>, fs: seq<seq<SpiEvent>>, m: seq<byte>)
    requires Chained(chip, h, fs)
    ensures Chained(chip, h, fs + [FrameOn(chip, h + Concat(fs), m)])
  {
    var f := FrameOn(chip, h + Concat(fs), m);
    var gs := fs + [f];
    MosiOfFrame(chip, h + Concat(fs), m);
    assert gs[..|fs|] == fs;
    assert ChainedAt(chip, h, gs, |fs|);
    forall k | 0 <= k < |fs|
      ensures ChainedAt(chip, h, gs, k)
    {
      assert ChainedAt(chip, h, fs, k);
      assert gs[..k] == fs[..k];
    }
  }

  /** The frames of a run each answer the bytes they carry. */
  lemma {:induction false} FramesChained(chip: Chip, h: seq<SpiEvent>, ms: seq<seq<byte>>)
    ensures Chained(chip, h, Frames(chip, h, ms))
    decreases |ms|
  {
    if ms != [] {
      FramesChained(chip, h, ms[..|ms| - 1]);
      ChainedSnoc(chip, h, Frames(chip, h, ms[..|ms| - 1]), ms[|ms| - 1]);
    }
  }

  /** The MOSI bytes of each frame of a run. */
  function MosiFrames(fs: seq<seq<SpiEvent>>): (ms: seq<seq<byte>>)
    ensures |ms| == |fs|
  {
    seq(|fs|, k requires 0 <= k < |fs| => MosiOf(fs[k]))
  }

  /** A run of frames carries exactly the MOSI frames it was built from. */
  lemma {:induction false} MosiOfFrames(chip: Chip, h: seq<SpiEvent>, ms: seq<seq<byte>>)
    ensures MosiFrames(Frames(chip, h, ms)) == ms
    decreases |ms|
  {
    if ms != [] {
      var p := Frames(chip, h, ms[..|ms| - 1]);
      MosiOfFrames(chip, h, ms[..|ms| - 1]);
      MosiOfFrame(chip, h + Concat(p), ms[|ms| - 1]);
      var fs := Frames(chip, h, ms);
      var f := FrameOn(chip, h + Concat(p), ms[|ms| - 1]);
      assert fs == p + [f];
      MosiFramesAppend(p, [f]);
      assert ms == ms[..|ms| - 1] + [ms[|ms| - 1]];
    }
  }

  // ---------------------------------------------------------------------
  // Register access

  /** The MOSI bytes of a register read: the address with bit 7 clear, then
      a dummy 0x00 that clocks the value out. */
  function ReadMosi(reg: byte): seq<byte>
  {
    [ReadAddr(reg), 0x00]
  }

  /** The MOSI bytes of a register write: the address with bit 7 set, then
      the value. */
  function WriteMosi(reg: byte, value: byte): seq<byte>
  {
    [SetBit7(reg), value]
  }

  /** The frame of `lora_read_reg(reg)` after history `h`. */
  function ReadOn(chip: Chip, h: seq<SpiEvent>, reg: byte): seq<SpiEvent>
  {
    RegFrame(chip, h, ReadAddr(reg), 0x00)
  }

  /** The frame of `lora_write_reg(reg, value)` after history `h`. */
  function WriteOn(chip: Chip, h: seq<SpiEvent>, reg: byte, value: byte): seq<SpiEvent>
  {
    RegFrame(chip, h, SetBit7(reg), value)
  }

  /** The register frames are the frames of their MOSI bytes. */
  lemma RegisterFrames(chip: Chip, h: seq<SpiEvent>, reg: byte, value: byte)
    ensures FrameOn(chip, h, ReadMosi(reg)) == ReadOn(chip, h, reg)
    ensures FrameOn(chip, h, WriteMosi(reg, value)) == WriteOn(chip, h, reg, value)
  {
    Frame2(chip, h, ReadAddr(reg), 0x00);
    Frame2(chip, h, SetBit7(reg), value);
  }

  /** The value a read frame returns: the answer to its second byte. */
  function ReadValue(chip: Chip, h: seq<SpiEvent>, reg: byte): byte
  {
    var a := ReadAddr(reg);
    chip(h + [Select, Exchange(a, chip(h + [Select], a))], 0x00)
  }

  /** `lora_read_reg` is one frame of exactly two exchanges, `reg & 0x7F`
      then 0x00, and returns the radio's answer to the second; a read and a
      write of the same register differ only in bit 7 of the address byte. */
  lemma ReadFrame(chip: Chip, h: seq<SpiEvent>, reg: byte)
    ensures var f := FrameOn(chip, h, ReadMosi(reg));
            |f| == 4 && f[0] == Select && f[3] == Deselect &&
            f[1].Exchange? && f[1].mosi == reg % 0x80 && f[1].mosi < 0x80 &&
            f[2] == Exchange(0x00, ReadValue(chip, h, reg)) &&
            ReadValue(chip, h, reg) == chip(h + f[..2], 0x00)
    ensures ReadMosi(reg)[0] + 0x80 == WriteMosi(reg, 0)[0]
  {
    Frame2(chip, h, ReadAddr(reg), 0x00);
    var f := FrameOn(chip, h, ReadMosi(reg));
    assert f[..2] == [Select, f[1]];
  }

  /** The MOSI bytes of `lora_set_mode(m)`: RegOpMode written with
      `0x80 | m`, so the LoRa mode bit is always set and the mode kept. */
  function ModeMosi(mode: byte): (m: seq<byte>)
    ensures |m| == 2 && m[0] == 0x81 && m[1] >= 0x80 && m[1] % 0x80 == mode % 0x80
  {
    WriteMosi(RegOpMode, SetBit7(mode))
  }

  /** The frame of `lora_set_mode(mode)` after history `h`. */
  function ModeOn(chip: Chip, h: seq<SpiEvent>, mode: byte): seq<SpiEvent>
  {
    WriteOn(chip, h, RegOpMode, SetBit7(mode))
  }

  lemma ModeFrame(chip: Chip, h: seq<SpiEvent>, mode: byte)
    ensures FrameOn(chip, h, ModeMosi(mode)) == ModeOn(chip, h, mode)
  {
    RegisterFrames(chip, h, RegOpMode, SetBit7(mode));
  }

  /** The operating mode selected by the last RegOpMode write among the
      MOSI frames `ms`, if any. */
  function LastMode(ms: seq<seq<byte>>): (r: Option<byte>)
    ensures r.Some? ==> r.value < 8
  {
    if ms == [] then None
    else
      var m := ms[|ms| - 1];
      if |m| == 2 && m[0] == SetBit7(RegOpMode) then Some(m[1] % 8) else LastMode(ms[..|ms| - 1])
  }

  // ---------------------------------------------------------------------
  // Initialisation

  /** The synthesiser word `(915000000 << 19) / 32000000` for 915 MHz from
      a 32 MHz reference (the quotient is exact). */
  function Frf(): nat
  {
    915_000_000 * 0x8_0000 / 32_000_000
  }

  /** The three register writes after the Sleep mode write take the word's
      bytes, most significant first, each truncated to 8 bits. */
  lemma FrfBytes()
    ensures Frf() == 0xE4C000 && 915_000_000 * 0x8_0000 % 32_000_000 == 0
    ensures Frf() / 0x1_0000 % 0x100 == 0xE4
    ensures Frf() / 0x100 % 0x100 == 0xC0
    ensures Frf() % 0x100 == 0x00
  {
  }

  /** The writes of `lora_init` after the identity check, in source order:
      Sleep, the frequency, the PA, modem, preamble, sync word, OCP, FIFO
      base, LNA and IRQ mask settings, clearing every IRQ flag, Standby. */
  function InitMosi(): seq<seq<byte>>
  {
    RfMosi() + PacketMosi() + [ModeMosi(ModeStdby)]
  }

  /** The carrier and the modulation: frequency, power, modem settings. */
  function RfMosi(): seq<seq<byte>>
  {
    FrequencyMosi() + PowerMosi() + ModemMosi()
  }

  /** Sleep, then the synthesiser word, most significant byte first. */
  function FrequencyMosi(): seq<seq<byte>>
  {
    [ ModeMosi(ModeSleep),
      WriteMosi(RegFrfMsb, Frf() / 0x1_0000 % 0x100),
      WriteMosi(RegFrfMid, Frf() / 0x100 % 0x100),
      WriteMosi(RegFrfLsb, Frf() % 0x100) ]
  }

  /** PA at full power on PA_BOOST with the +20 dBm DAC. */
  function PowerMosi(): seq<seq<byte>>
  {
    [ WriteMosi(RegPaConfig, 0xFF),
      WriteMosi(RegPaDac, 0x87) ]
  }

  /** BW 62.5 kHz, CR 4/8, explicit header; SF 12, CRC on; low data rate
      optimisation, LNA gain from the AGC. */
  function ModemMosi(): seq<seq<byte>>
  {
    [ WriteMosi(RegModemConfig1, 0x78),
      WriteMosi(RegModemConfig2, 0xC4),
      WriteMosi(RegModemConfig3, 0x0C) ]
  }

  /** The packet and the buffers around it: preamble and sync word, OCP,
      FIFO bases, LNA, IRQ mask and flags. */
  function PacketMosi(): seq<seq<byte>>
  {
    FramingMosi() + FifoMosi() + IrqMosi()
  }

  /** Preamble of 12 symbols, sync word 0x12. */
  function FramingMosi(): seq<seq<byte>>
  {
    [ WriteMosi(RegPreambleMsb, 0x00),
      WriteMosi(RegPreambleLsb, 0x0C),
      WriteMosi(RegSyncWord, 0x12) ]
  }

  /** Over-current protection, both FIFO bases at 0. */
  function FifoMosi(): seq<seq<byte>>
  {
    [ WriteMosi(RegOcp, 0x37),
      WriteMosi(RegFifoTxBaseAddr, 0x00),
      WriteMosi(RegFifoRxBaseAddr, 0x00) ]
  }

  /** LNA boost, every IRQ unmasked, every IRQ flag cleared. */
  function IrqMosi(): seq<seq<byte>>
  {
    [ WriteMosi(RegLna, 0x23),
      WriteMosi(RegIrqFlagsMask, 0x00),
      WriteMosi(RegIrqFlags, 0xFF) ]
  }

  /** The frames of an operation and whether it reported success. */
  datatype Outcome = Outcome(frames: seq<seq<SpiEvent>>, ok: bool)

  /** `lora_init` after history `h`: the RegVersion read; on a wrong
      signature nothing more, otherwise the writes of `InitMosi`. */
  function InitRun(chip: Chip, h: seq<SpiEvent>): (o: Outcome)
    ensures o.ok ==> |o.frames| == 20
    ensures !o.ok ==> |o.frames| == 1
  {
    var v := ReadOn(chip, h, RegVersion);
    if ReadValue(chip, h, RegVersion) != ChipVersion then Outcome([v], false)
    else Outcome([v] + Frames(chip, h + v, InitMosi()), true)
  }

  /** The events of `lora_init`: the RegVersion read, then the writes if
      and only if it returned the signature. */
  lemma InitRunFrames(chip: Chip, h: seq<SpiEvent>)
    ensures var v := ReadOn(chip, h, RegVersion);
            var o := InitRun(chip, h);
            o.ok == (ReadValue(chip, h, RegVersion) == ChipVersion) &&
            (!o.ok ==> h + Concat(o.frames) == h + v) &&
            (o.ok ==> h + Concat(o.frames) == (h + v) + Concat(Frames(chip, h + v, InitMosi())))
  {
    var v := ReadOn(chip, h, RegVersion);
    assert Concat([v]) == v by {
      ConcatSnoc([], v);
      assert [] + [v] == [v];
    }
    if ReadValue(chip, h, RegVersion) == ChipVersion {
      var fs := Frames(chip, h + v, InitMosi());
      assert InitRun(chip, h).frames == [v] + fs;
      ConcatAppend([v], fs);
      assert h + (v + Concat(fs)) == (h + v) + Concat(fs);
    }
  }

  /** `lora_init` succeeds iff RegVersion reads 0x12. On a mismatch its only
      frame is that read: no register is written. On success the writes
      follow: Sleep first, then the frequency bytes 0xE4 0xC0 0x00 to
      0x06..0x08, ..., then all IRQ flags cleared (0x12 <- 0xFF) and finally
      Standby (0x01 <- 0x81), which is the mode the radio is left in. */
  lemma InitShape(chip: Chip, h: seq<SpiEvent>)
    ensures var o := InitRun(chip, h);
            var ms := MosiFrames(o.frames);
            o.ok == (ReadValue(chip, h, RegVersion) == ChipVersion) &&
            |ms| >= 1 && ms[0] == [RegVersion, 0x00] &&
            (!o.ok ==> |ms| == 1 && LastMode(ms) == None) &&
            (o.ok ==> |ms| == 20 && ms[1] == [0x81, 0x80] &&
                      ms[2] == [0x86, 0xE4] && ms[3] == [0x87, 0xC0] && ms[4] == [0x88, 0x00] &&
                      ms[18] == [0x92, 0xFF] && ms[19] == [0x81, 0x81] &&
                      LastMode(ms) == Some(ModeStdby))
  {
    InitMosiFrames(chip, h);
    FrfBytes();
    var ms := MosiFrames(InitRun(chip, h).frames);
    if !InitRun(chip, h).ok {
      assert ms[..0] == [];
    }
  }

  /** The MOSI frames of `lora_init`: the RegVersion read, then, iff it
      returned the chip signature, the configuration writes. */
  lemma InitMosiFrames(chip: Chip, h: seq<SpiEvent>)
    ensures var o := InitRun(chip, h);
            o.ok == (ReadValue(chip, h, RegVersion) == ChipVersion) &&
            MosiFrames(o.frames) == [ReadMosi(RegVersion)] + (if o.ok then InitMosi() else [])
  {
    var o := InitRun(chip, h);
    var v := ReadOn(chip, h, RegVersion);
    RegisterFrames(chip, h, RegVersion, 0x00);
    MosiOfFrame(chip, h, ReadMosi(RegVersion));
    if o.ok {
      var rest := Frames(chip, h + v, InitMosi());
      MosiOfFrames(chip, h + v, InitMosi());
      MosiFramesAppend([v], rest);
    }
  }

  lemma MosiFramesAppend(a: seq<seq<SpiEvent>>, b: seq<seq<SpiEvent>>)
    ensures MosiFrames(a + b) == MosiFrames(a) + MosiFrames(b)
  {
    assert forall k :: 0 <= k < |a| ==> (a + b)[k] == a[k];
    assert forall k :: |a| <= k < |a| + |b| ==> (a + b)[k] == b[k - |a|];
  }

  // ---------------------------------------------------------------------
  // Transmission

  /** Frame `f` is a read of RegIrqFlags whose value has TxDone set or not,
      as `done` says. */
  predicate PollRead(f: seq<SpiEvent>, done: bool)
  {
    |f| == 4 && f[2].Exchange? && MosiOf(f) == ReadMosi(RegIrqFlags) && TxDone(f[2].miso) == done
  }

  /** Bit 3 of RegIrqFlags: transmission done. */
  predicate TxDone(flags: byte)
  {
    flags / 8 % 2 == 1
  }

  /** The writes `lora_send_bytes` makes before it polls: Standby, the FIFO
      pointer to 0, the payload as one FIFO burst (`0x80` then the bytes),
      the payload length, all IRQ flags cleared, DIO0 mapped to TxDone, and
      the switch to TX. */
  function SetupMosi(data: seq<byte>): seq<seq<byte>>
    requires |data| < 0x100
  {
    [ ModeMosi(ModeStdby),
      WriteMosi(RegFifoAddrPtr, 0x00),
      [SetBit7(RegFifo)] + data,
      WriteMosi(RegPayloadLength, |data|),
      WriteMosi(RegIrqFlags, 0xFF),
      WriteMosi(RegDioMapping1, 0x40),
      ModeMosi(ModeTx) ]
  }

  /** The poll of `lora_send_bytes` with `cnt` polls left, after the frames
      `acc` that left history `h`: read RegIrqFlags; on TxDone clear that
      flag, go to Standby and succeed; when no poll is left go to Standby
      and fail. */
  function PollFrom(chip: Chip, h: seq<SpiEvent>, cnt: nat, acc: seq<seq<SpiEvent>>): (o: Outcome)
    ensures |acc| < |o.frames| <= |acc| + cnt + 2
    ensures !o.ok ==> |o.frames| == |acc| + cnt + 1
    decreases cnt
  {
    if cnt == 0 then Outcome(acc + [ModeOn(chip, h, ModeStdby)], false)
    else
      var r := ReadOn(chip, h, RegIrqFlags);
      if TxDone(ReadValue(chip, h, RegIrqFlags)) then
        var c := WriteOn(chip, h + r, RegIrqFlags, IrqTxDoneMask);
        Outcome(acc + [r, c, ModeOn(chip, h + r + c, ModeStdby)], true)
      else PollFrom(chip, h + r, cnt - 1, acc + [r])
  }

  /** A poll that sees TxDone ends it: the read, the flag clear, Standby. */
  lemma PollDone(chip: Chip, h0: seq<SpiEvent>, h: seq<SpiEvent>, cnt: nat, acc: seq<seq<SpiEvent>>)
    requires h == h0 + Concat(acc)
    requires cnt > 0 && TxDone(ReadValue(chip, h, RegIrqFlags))
    ensures var r := ReadOn(chip, h, RegIrqFlags);
            var c := WriteOn(chip, h + r, RegIrqFlags, IrqTxDoneMask);
            var o := PollFrom(chip, h, cnt, acc);
            o.ok && h0 + Concat(o.frames) == h + r + c + ModeOn(chip, h + r + c, ModeStdby)
  {
    var r := ReadOn(chip, h, RegIrqFlags);
    var c := WriteOn(chip, h + r, RegIrqFlags, IrqTxDoneMask);
    var sb := ModeOn(chip, h + r + c, ModeStdby);
    ConcatSnoc(acc, r);
    ConcatSnoc(acc + [r], c);
    ConcatSnoc(acc + [r] + [c], sb);
    assert acc + [r] + [c] + [sb] == acc + [r, c, sb];
    assert h0 + (Concat(acc) + r + c + sb) == (h0 + Concat(acc)) + r + c + sb;
  }

  /** A poll that does not see TxDone leaves one read behind it. */
  lemma PollNext(chip: Chip, h0: seq<SpiEvent>, h: seq<SpiEvent>, cnt: nat, acc: seq<seq<SpiEvent>>)
    requires h == h0 + Concat(acc)
    requires cnt > 0 && !TxDone(ReadValue(chip, h, RegIrqFlags))
    ensures var r := ReadOn(chip, h, RegIrqFlags);
            PollFrom(chip, h, cnt, acc) == PollFrom(chip, h + r, cnt - 1, acc + [r]) &&
            h + r == h0 + Concat(acc + [r])
  {
    var r := ReadOn(chip, h, RegIrqFlags);
    ConcatSnoc(acc, r);
    assert h0 + (Concat(acc) + r) == (h0 + Concat(acc)) + r;
  }

  /** With no poll left, Standby and failure. */
  lemma PollStop(chip: Chip, h0: seq<SpiEvent>, h: seq<SpiEvent>, acc: seq<seq<SpiEvent>>)
    requires h == h0 + Concat(acc)
    ensures var o := PollFrom(chip, h, 0, acc);
            !o.ok && h0 + Concat(o.frames) == h + ModeOn(chip, h, ModeStdby)
  {
    var m := ModeOn(chip, h, ModeStdby);
    ConcatSnoc(acc, m);
    assert h0 + (Concat(acc) + m) == (h0 + Concat(acc)) + m;
  }

  /** `lora_send_bytes` after history `h`: nothing at all for an empty or
      over-long payload; otherwise the set-up frames, then the poll. */
  function SendRun(chip: Chip, h: seq<SpiEvent>, data: seq<byte>): (o: Outcome)
    ensures (|data| == 0 || |data| > 255) ==> o.frames == [] && !o.ok
    ensures 0 < |data| <= 255 ==> 8 <= |o.frames| <= 7 + TxTimeoutMs + 2
    ensures 0 < |data| <= 255 && !o.ok ==> |o.frames| == 7 + TxTimeoutMs + 1
  {
    if |data| == 0 || |data| > 255 then Outcome([], false)
    else
      var s := Frames(chip, h, SetupMosi(data));
      PollFrom(chip, h + Concat(s), TxTimeoutMs, s)
  }

  /** The shape of a poll from `cnt` polls left after the frames `acc`:
      `n` reads of RegIrqFlags, at most `cnt`, of which only the last may
      see TxDone; then, on TxDone, the flag clear and Standby, else (all
      `cnt` reads done) Standby alone. */
  predicate PollShaped(o: Outcome, cnt: nat, acc: seq<seq<SpiEvent>>)
  {
    var fs := o.frames;
    var n := |fs| - |acc| - (if o.ok then 2 else 1);
    0 <= n <= cnt && (o.ok ==> n >= 1) && (!o.ok ==> n == cnt) &&
    fs[..|acc|] == acc &&
    (forall k :: |acc| <= k < |acc| + n - 1 ==> PollRead(fs[k], false)) &&
    (n > 0 ==> PollRead(fs[|acc| + n - 1], o.ok)) &&
    (o.ok ==> MosiOf(fs[|fs| - 2]) == WriteMosi(RegIrqFlags, IrqTxDoneMask)) &&
    MosiOf(fs[|fs| - 1]) == ModeMosi(ModeStdby)
  }

  lemma PollShapedStop(acc: seq<seq<SpiEvent>>, s: seq<SpiEvent>)
    requires MosiOf(s) == ModeMosi(ModeStdby)
    ensures PollShaped(Outcome(acc + [s], false), 0, acc)
  {
    assert (acc + [s])[..|acc|] == acc;
  }

  lemma PollShapedDone(cnt: nat, acc: seq<seq<SpiEvent>>, r: seq<SpiEvent>, c: seq<SpiEvent>, s: seq<SpiEvent>)
    requires cnt > 0 && PollRead(r, true)
    requires MosiOf(c) == WriteMosi(RegIrqFlags, IrqTxDoneMask) && MosiOf(s) == ModeMosi(ModeStdby)
    ensures PollShaped(Outcome(acc + [r, c, s], true), cnt, acc)
  {
    var fs := acc + [r, c, s];
    assert fs[..|acc|] == acc;
    assert fs[|acc|] == r && fs[|fs| - 2] == c && fs[|fs| - 1] == s;
  }

  lemma PollShapedCons(o: Outcome, cnt: nat, acc: seq<seq<SpiEvent>>, r: seq<SpiEvent>)
    requires cnt > 0 && PollRead(r, false) && PollShaped(o, cnt - 1, acc + [r])
    ensures PollShaped(o, cnt, acc)
  {
    var fs := o.frames;
    assert fs[..|acc|] == (acc + [r])[..|acc|] == acc;
    assert fs[|acc|] == (acc + [r])[|acc|] == r;
  }

  lemma {:induction false} PollShape(chip: Chip, h: seq<SpiEvent>, cnt: nat, acc: seq<seq<SpiEvent>>)
    ensures PollShaped(PollFrom(chip, h, cnt, acc), cnt, acc)
    decreases cnt
  {
    if cnt == 0 {
      ModeFrame(chip, h, ModeStdby);
      MosiOfFrame(chip, h, ModeMosi(ModeStdby));
      PollShapedStop(acc, ModeOn(chip, h, ModeStdby));
    } else {
      var r := ReadOn(chip, h, RegIrqFlags);
      RegisterFrames(chip, h, RegIrqFlags, IrqTxDoneMask);
      MosiOfFrame(chip, h, ReadMosi(RegIrqFlags));
      assert PollRead(r, TxDone(ReadValue(chip, h, RegIrqFlags)));
      if TxDone(ReadValue(chip, h, RegIrqFlags)) {
        var c := WriteOn(chip, h + r, RegIrqFlags, IrqTxDoneMask);
        RegisterFrames(chip, h + r, RegIrqFlags, IrqTxDoneMask);
        MosiOfFrame(chip, h + r, WriteMosi(RegIrqFlags, IrqTxDoneMask));
        ModeFrame(chip, h + r + c, ModeStdby);
        MosiOfFrame(chip, h + r + c, ModeMosi(ModeStdby));
        PollShapedDone(cnt, acc, r, c, ModeOn(chip, h + r + c, ModeStdby));
      } else {
        PollShape(chip, h + r, cnt - 1, acc + [r]);
        PollShapedCons(PollFrom(chip, h, cnt, acc), cnt, acc, r);
      }
    }
  }

  /** The poll keeps every frame the radio's genuine response. */
  lemma {:induction false} PollChained(chip: Chip, h0: seq<SpiEvent>, h: seq<SpiEvent>, cnt: nat, acc: seq<seq<SpiEvent>>)
    requires h == h0 + Concat(acc) && Chained(chip, h0, acc)
    ensures Chained(chip, h0, PollFrom(chip, h, cnt, acc).frames)
    decreases cnt
  {
    if cnt == 0 {
      ModeFrame(chip, h, ModeStdby);
      ChainedStep(chip, h0, h, acc, ModeMosi(ModeStdby));
    } else {
      var r := ReadOn(chip, h, RegIrqFlags);
      RegisterFrames(chip, h, RegIrqFlags, IrqTxDoneMask);
      ChainedStep(chip, h0, h, acc, ReadMosi(RegIrqFlags));
      if TxDone(ReadValue(chip, h, RegIrqFlags)) {
        PollChainedDone(chip, h0, h + r, acc + [r]);
        var c := WriteOn(chip, h + r, RegIrqFlags, IrqTxDoneMask);
        assert acc + [r] + [c, ModeOn(chip, h + r + c, ModeStdby)] ==
               acc + [r, c, ModeOn(chip, h + r + c, ModeStdby)];
      } else {
        PollChained(chip, h0, h + r, cnt - 1, acc + [r]);
      }
    }
  }

  /** The flag clear and the Standby write after a poll that saw TxDone. */
  lemma PollChainedDone(chip: Chip, h0: seq<SpiEvent>, h: seq<SpiEvent>, acc: seq<seq<SpiEvent>>)
    requires h == h0 + Concat(acc) && Chained(chip, h0, acc)
    ensures var c := WriteOn(chip, h, RegIrqFlags, IrqTxDoneMask);
            Chained(chip, h0, acc + [c, ModeOn(chip, h + c, ModeStdby)])
  {
    var c := WriteOn(chip, h, RegIrqFlags, IrqTxDoneMask);
    RegisterFrames(chip, h, RegIrqFlags, IrqTxDoneMask);
    ChainedStep(chip, h0, h, acc, WriteMosi(RegIrqFlags, IrqTxDoneMask));
    ModeFrame(chip, h + c, ModeStdby);
    ChainedStep(chip, h0, h + c, acc + [c], ModeMosi(ModeStdby));
    assert acc + [c] + [ModeOn(chip, h + c, ModeStdby)] == acc + [c, ModeOn(chip, h + c, ModeStdby)];
  }

  /** One more genuine frame after a chained run. */
  lemma ChainedStep(chip: Chip, h0: seq<SpiEvent>, h: seq<SpiEvent>, acc: seq<seq<SpiEvent>>, m: seq<byte>)
    requires h == h0 + Concat(acc) && Chained(chip, h0, acc)
    ensures var f := FrameOn(chip, h, m);
            Chained(chip, h0, acc + [f]) && h + f == h0 + Concat(acc + [f])
  {
    ChainedSnoc(chip, h0, acc, m);
    ConcatSnoc(acc, FrameOn(chip, h, m));
  }

  /** `lora_send_bytes` with a payload of 1..255 bytes: the set-up frames in
      order (Standby, FIFO pointer 0, the FIFO burst holding exactly the
      payload, the length, IRQ flags cleared, DIO mapping, TX), then at
      most 5000 RegIrqFlags reads, of which only the last may see TxDone.
      It succeeds iff TxDone was seen, and then clears that flag; if it
      fails, it read the flags exactly 5000 times. Either way the last frame
      writes Standby, so the radio is never left transmitting. */
  lemma SendShape(chip: Chip, h: seq<SpiEvent>, data: seq<byte>)
    requires 0 < |data| <= 255
    ensures var o := SendRun(chip, h, data);
            var ms := MosiFrames(o.frames);
            var n := |ms| - 7 - (if o.ok then 2 else 1);
            |ms| >= 8 && ms[..7] == SetupMosi(data) &&
            ms[2] == [0x80] + data && ms[3] == [0xA2, |data|] && ms[6] == [0x81, 0x83] &&
            0 <= n <= TxTimeoutMs && (!o.ok ==> n == TxTimeoutMs) && (o.ok ==> n >= 1) &&
            (forall k :: 7 <= k < 7 + n - 1 ==> PollRead(o.frames[k], false)) &&
            (n > 0 ==> PollRead(o.frames[7 + n - 1], o.ok)) &&
            (o.ok ==> ms[|ms| - 2] == [0x92, 0x08]) &&
            ms[|ms| - 1] == [0x81, 0x81] && LastMode(ms) == Some(ModeStdby)
    ensures Chained(chip, h, SendRun(chip, h, data).frames)
  {
    var s := Frames(chip, h, SetupMosi(data));
    var o := SendRun(chip, h, data);
    FramesChained(chip, h, SetupMosi(data));
    PollChained(chip, h, h + Concat(s), TxTimeoutMs, s);
    PollShape(chip, h + Concat(s), TxTimeoutMs, s);
    MosiOfFrames(chip, h, SetupMosi(data));
    SendShaped(o, s, data);
  }

  lemma SendShaped(o: Outcome, s: seq<seq<SpiEvent>>, data: seq<byte>)
    requires 0 < |data| <= 255 && MosiFrames(s) == SetupMosi(data)
    requires PollShaped(o, TxTimeoutMs, s)
    ensures var ms := MosiFrames(o.frames);
            var n := |ms| - 7 - (if o.ok then 2 else 1);
            |ms| >= 8 && ms[..7] == SetupMosi(data) &&
            ms[2] == [0x80] + data && ms[3] == [0xA2, |data|] && ms[6] == [0x81, 0x83] &&
            0 <= n <= TxTimeoutMs && (!o.ok ==> n == TxTimeoutMs) && (o.ok ==> n >= 1) &&
            (forall k :: 7 <= k < 7 + n - 1 ==> PollRead(o.frames[k], false)) &&
            (n > 0 ==> PollRead(o.frames[7 + n - 1], o.ok)) &&
            (o.ok ==> ms[|ms| - 2] == [0x92, 0x08]) &&
            ms[|ms| - 1] == [0x81, 0x81] && LastMode(ms) == Some(ModeStdby)
  {
    var ms := MosiFrames(o.frames);
    var fs := o.frames;
    assert |s| == 7;
    assert fs[..7] == s;
    assert ms[..7] == MosiFrames(s) by {
      forall k | 0 <= k < 7
        ensures ms[..7][k] == MosiFrames(s)[k]
      {
        assert fs[k] == s[k];
      }
    }
    var su := SetupMosi(data);
    assert ms[2] == su[2] && ms[3] == su[3] && ms[6] == su[6];
    assert ms[|ms| - 1] == MosiOf(fs[|fs| - 1]);
    assert ms[|ms| - 2] == MosiOf(fs[|fs| - 2]);
  }

  /** A radio that never raises TxDone: the send fails after exactly 5000
      polls and leaves the radio in Standby. */
  lemma SendTimesOut(chip: Chip, h: seq<SpiEvent>, data: seq<byte>)
    requires 0 < |data| <= 255
    requires forall hist :: !TxDone(chip(hist, 0x00))
    ensures var o := SendRun(chip, h, data);
            !o.ok && |o.frames| == 7 + TxTimeoutMs + 1 &&
            LastMode(MosiFrames(o.frames)) == Some(ModeStdby)
  {
    SendShape(chip, h, data);
    var o := SendRun(chip, h, data);
    if o.ok {
      var k := |o.frames| - 3;
      var f := o.frames[k];
      assert PollRead(f, true);
      assert ChainedAt(chip, h, o.frames, k);
      FrameShape(chip, h + Concat(o.frames[..k]), ReadMosi(RegIrqFlags));
      assert false;
    }
  }

  // ---------------------------------------------------------------------
  // The driver

  class Radio {
    /** Everything put on the SPI link so far, in order. */
    var spi: seq<SpiEvent>
    /** The radio at the other end of the link. */
    const chip: Chip

    constructor (chip: Chip)
      ensures this.chip == chip && spi == []
    {
      this.chip := chip;
      spi := [];
    }

    /** `spi_select` */
    method SpiSelect()
      modifies this
      ensures spi == old(spi) + [Select]
    {
      spi := spi + [Select];
    }

    /** `spi_deselect` */
    method SpiDeselect()
      modifies this
      ensures spi == old(spi) + [Deselect]
    {
      spi := spi + [Deselect];
    }

    /** `spi_txrx`: one byte out on MOSI, the radio's byte in from MISO. */
    method SpiTxRx(b: byte) returns (r: byte)
      modifies this
      ensures r == chip(old(spi), b) && spi == old(spi) + [Exchange(b, r)]
    {
      r := chip(spi, b);
      spi := spi + [Exchange(b, r)];
    }

    /** `lora_read_reg` */
    method ReadReg(reg: byte) returns (v: byte)
      modifies this
      ensures spi == old(spi) + ReadOn(chip, old(spi), reg)
      ensures v == ReadValue(chip, old(spi), reg)
    {
      ghost var h := spi;
      SpiSelect();
      var a := SpiTxRx(ReadAddr(reg));
      assert spi == h + [Select, Exchange(ReadAddr(reg), a)];
      v := SpiTxRx(0x00);
      SpiDeselect();
    }

    /** `lora_write_reg` */
    method WriteReg(reg: byte, value: byte)
      modifies this
      ensures spi == old(spi) + WriteOn(chip, old(spi), reg, value)
    {
      ghost var h := spi;
      SpiSelect();
      var a := SpiTxRx(SetBit7(reg));
      assert spi == h + [Select, Exchange(SetBit7(reg), a)];
      var _ := SpiTxRx(value);
      SpiDeselect();
    }

    /** `lora_set_mode` */
    method SetMode(mode: byte)
      modifies this
      ensures spi == old(spi) + ModeOn(chip, old(spi), mode)
    {
      WriteReg(RegOpMode, SetBit7(mode));
    }

    /** `lora_write_fifo`: one frame, the FIFO address with the write bit,
        then the payload bytes in order. */
    method WriteFifo(data: seq<byte>)
      requires |data| < 0x100
      modifies this
      ensures spi == old(spi) + FrameOn(chip, old(spi), [SetBit7(RegFifo)] + data)
    {
      ghost var h := spi + [Select];
      ghost var m := [SetBit7(RegFifo)] + data;
      SpiSelect();
      var a := SpiTxRx(SetBit7(RegFifo));
      assert m[..1][..0] == [];
      assert Xfer(chip, h, m[..1]) == [Exchange(SetBit7(RegFifo), a)] by {
        assert h + [] == h;
      }
      var i := 0;
      while i < |data|
        invariant 0 <= i <= |data|
        invariant spi == h + Xfer(chip, h, m[..i + 1])
      {
        var _ := SpiTxRx(data[i]);
        assert m[..i + 2][..i + 1] == m[..i + 1];
        i := i + 1;
      }
      SpiDeselect();
      assert m[..|data| + 1] == m;
    }

    /** `lora_write_reg`, as the next of a run of frames begun after
        history `h`, `pre` issued so far. */
    method WriteRegStep(reg: byte, value: byte, ghost h: seq<SpiEvent>, ghost pre: seq<seq<byte>>)
      returns (ghost post: seq<seq<byte>>)
      requires spi == h + Concat(Frames(chip, h, pre))
      modifies this
      ensures post == pre + [WriteMosi(reg, value)]
      ensures spi == h + Concat(Frames(chip, h, post))
    {
      RunSnocWrite(chip, h, pre, reg, value);
      WriteReg(reg, value);
      post := pre + [WriteMosi(reg, value)];
    }

    /** `lora_set_mode`, as the next of a run of frames. */
    method SetModeStep(mode: byte, ghost h: seq<SpiEvent>, ghost pre: seq<seq<byte>>)
      returns (ghost post: seq<seq<byte>>)
      requires spi == h + Concat(Frames(chip, h, pre))
      modifies this
      ensures post == pre + [ModeMosi(mode)]
      ensures spi == h + Concat(Frames(chip, h, post))
    {
      RunSnocWrite(chip, h, pre, RegOpMode, SetBit7(mode));
      SetMode(mode);
      post := pre + [ModeMosi(mode)];
    }

    /** `lora_write_fifo`, as the next of a run of frames. */
    method WriteFifoStep(data: seq<byte>, ghost h: seq<SpiEvent>, ghost pre: seq<seq<byte>>)
      returns (ghost post: seq<seq<byte>>)
      requires |data| < 0x100
      requires spi == h + Concat(Frames(chip, h, pre))
      modifies this
      ensures post == pre + [[SetBit7(RegFifo)] + data]
      ensures spi == h + Concat(Frames(chip, h, post))
    {
      WriteFifo(data);
      FramesSnoc(chip, h, pre, [SetBit7(RegFifo)] + data);
      post := pre + [[SetBit7(RegFifo)] + data];
    }

    /** `lora_init`: check the chip signature, then configure the radio
        for 915 MHz and leave it in Standby. */
    method Init() returns (ok: bool)
      modifies this
      ensures spi == old(spi) + Concat(InitRun(chip, old(spi)).frames)
      ensures ok == InitRun(chip, old(spi)).ok
    {
      ghost var h := spi;
      InitRunFrames(chip, h);
      var rx := ReadReg(RegVersion);
      if rx != ChipVersion {
        return false;
      }
      Configure();
      return true;
    }

    /** `lora_send_bytes`: reject an empty or over-long payload without
        touching the radio; otherwise load the FIFO, start the transmission
        and poll RegIrqFlags for TxDone at most 5000 times, returning the
        radio to Standby either way. */
    method Send(data: seq<byte>) returns (ok: bool)
      modifies this
      ensures spi == old(spi) + Concat(SendRun(chip, old(spi), data).frames)
      ensures ok == SendRun(chip, old(spi), data).ok
    {
      ghost var h := spi;
      if |data| == 0 || |data| > 255 {
        return false;
      }
      LoadPayload(data, h);
      StartTx(data, h);
      ghost var q := SetupMosi(data);
      ghost var acc := Frames(chip, h, q);
      ok := AwaitTxDone(h, acc, TxTimeoutMs);
    }

    /** `lora_send_bytes`, lines 201-216: poll RegIrqFlags once per
        millisecond, at most 5000 times; on TxDone clear that flag, go to
        Standby and succeed, otherwise go to Standby and fail. */
    method AwaitTxDone(ghost h: seq<SpiEvent>, ghost acc0: seq<seq<SpiEvent>>, limit: nat) returns (ok: bool)
      requires spi == h + Concat(acc0)
      modifies this
      ensures spi == h + Concat(PollFrom(chip, old(spi), limit, acc0).frames)
      ensures ok == PollFrom(chip, old(spi), limit, acc0).ok
    {
      ghost var goal := PollFrom(chip, spi, limit, acc0);
      ghost var acc := acc0;
      var cnt := limit;
      while cnt > 0
        invariant spi == h + Concat(acc)
        invariant goal == PollFrom(chip, spi, cnt, acc)
      {
        ghost var before := spi;
        var flags := ReadReg(RegIrqFlags);
        if TxDone(flags) {
          CompleteTx(h, before, cnt, acc);
          return true;
        }
        PollNext(chip, h, before, cnt, acc);
        acc := acc + [ReadOn(chip, before, RegIrqFlags)];
        cnt := cnt - 1;
      }
      PollStop(chip, h, spi, acc);
      SetMode(ModeStdby);
      return false;
    }

    /** `lora_send_bytes`, lines 204-205: the poll that saw TxDone clears
        that flag and returns the radio to Standby. */
    method CompleteTx(ghost h: seq<SpiEvent>, ghost before: seq<SpiEvent>, ghost cnt: nat, ghost acc: seq<seq<SpiEvent>>)
      requires cnt > 0 && TxDone(ReadValue(chip, before, RegIrqFlags))
      requires before == h + Concat(acc) && spi == before + ReadOn(chip, before, RegIrqFlags)
      modifies this
      ensures spi == h + Concat(PollFrom(chip, before, cnt, acc).frames)
      ensures PollFrom(chip, before, cnt, acc).ok
    {
      WriteReg(RegIrqFlags, IrqTxDoneMask);
      SetMode(ModeStdby);
      PollDone(chip, h, before, cnt, acc);
    }

    /** `lora_init`, lines 149-172: every configuration write, ending in
        Standby. */
    method Configure()
      modifies this
      ensures spi == old(spi) + Concat(Frames(chip, old(spi), InitMosi()))
    {
      ghost var h := spi;
      assert spi == h + Concat(Frames(chip, h, []));
      ConfigureRf(h, []);
      assert [] + RfMosi() == RfMosi();
      ConfigurePacket(h, RfMosi());
      ghost var q := SetModeStep(ModeStdby, h, RfMosi() + PacketMosi());
      assert q == InitMosi();
    }

    /** `lora_init`, lines 149-154: Sleep, then the synthesiser word's
        three bytes, most significant first. */
    method SetFrequency(ghost h: seq<SpiEvent>, ghost pre: seq<seq<byte>>)
      requires spi == h + Concat(Frames(chip, h, pre))
      modifies this
      ensures spi == h + Concat(Frames(chip, h, pre + FrequencyMosi()))
    {
      FrfBytes();
      ghost var q := SetModeStep(ModeSleep, h, pre);
      var frf := 915_000_000 * 0x8_0000 / 32_000_000;
      assert frf == Frf() == 0xE4C000;
      q := WriteRegStep(RegFrfMsb, frf / 0x1_0000 % 0x100, h, q);
      q := WriteRegStep(RegFrfMid, frf / 0x100 % 0x100, h, q);
      q := WriteRegStep(RegFrfLsb, frf % 0x100, h, q);
      assert q == pre + FrequencyMosi() by {
        Snoc4(pre, ModeMosi(ModeSleep), WriteMosi(RegFrfMsb, 0xE4), WriteMosi(RegFrfMid, 0xC0), WriteMosi(RegFrfLsb, 0x00));
      }
    }

    /** `lora_init`, lines 157-158. */
    method SetPower(ghost h: seq<SpiEvent>, ghost pre: seq<seq<byte>>)
      requires spi == h + Concat(Frames(chip, h, pre))
      modifies this
      ensures spi == h + Concat(Frames(chip, h, pre + PowerMosi()))
    {
      ghost var q := WriteRegStep(RegPaConfig, 0xFF, h, pre);
      q := WriteRegStep(RegPaDac, 0x87, h, q);
      assert q == pre + PowerMosi() by { Snoc2(pre, WriteMosi(RegPaConfig, 0xFF), WriteMosi(RegPaDac, 0x87)); }
    }

    /** `lora_init`, lines 159-161. */
    method ConfigureModem(ghost h: seq<SpiEvent>, ghost pre: seq<seq<byte>>)
      requires spi == h + Concat(Frames(chip, h, pre))
      modifies this
      ensures spi == h + Concat(Frames(chip, h, pre + ModemMosi()))
    {
      ghost var q := WriteRegStep(RegModemConfig1, 0x78, h, pre);
      q := WriteRegStep(RegModemConfig2, 0xC4, h, q);
      q := WriteRegStep(RegModemConfig3, 0x0C, h, q);
      assert q == pre + ModemMosi() by { Snoc3(pre, WriteMosi(RegModemConfig1, 0x78), WriteMosi(RegModemConfig2, 0xC4), WriteMosi(RegModemConfig3, 0x0C)); }
    }

    /** `lora_init`, lines 162-164. */
    method ConfigureFraming(ghost h: seq<SpiEvent>, ghost pre: seq<seq<byte>>)
      requires spi == h + Concat(Frames(chip, h, pre))
      modifies this
      ensures spi == h + Concat(Frames(chip, h, pre + FramingMosi()))
    {
      ghost var q := WriteRegStep(RegPreambleMsb, 0x00, h, pre);
      q := WriteRegStep(RegPreambleLsb, 0x0C, h, q);
      q := WriteRegStep(RegSyncWord, 0x12, h, q);
      assert q == pre + FramingMosi() by { Snoc3(pre, WriteMosi(RegPreambleMsb, 0x00), WriteMosi(RegPreambleLsb, 0x0C), WriteMosi(RegSyncWord, 0x12)); }
    }

    /** `lora_init`, lines 165-167. */
    method ConfigureFifo(ghost h: seq<SpiEvent>, ghost pre: seq<seq<byte>>)
      requires spi == h + Concat(Frames(chip, h, pre))
      modifies this
      ensures spi == h + Concat(Frames(chip, h, pre + FifoMosi()))
    {
      ghost var q := WriteRegStep(RegOcp, 0x37, h, pre);
      q := WriteRegStep(RegFifoTxBaseAddr, 0x00, h, q);
      q := WriteRegStep(RegFifoRxBaseAddr, 0x00, h, q);
      assert q == pre + FifoMosi() by { Snoc3(pre, WriteMosi(RegOcp, 0x37), WriteMosi(RegFifoTxBaseAddr, 0x00), WriteMosi(RegFifoRxBaseAddr, 0x00)); }
    }

    /** `lora_init`, lines 168-170. */
    method ConfigureIrq(ghost h: seq<SpiEvent>, ghost pre: seq<seq<byte>>)
      requires spi == h + Concat(Frames(chip, h, pre))
      modifies this
      ensures spi == h + Concat(Frames(chip, h, pre + IrqMosi()))
    {
      ghost var q := WriteRegStep(RegLna, 0x23, h, pre);
      q := WriteRegStep(RegIrqFlagsMask, 0x00, h, q);
      q := WriteRegStep(RegIrqFlags, 0xFF, h, q);
      assert q == pre + IrqMosi() by { Snoc3(pre, WriteMosi(RegLna, 0x23), WriteMosi(RegIrqFlagsMask, 0x00), WriteMosi(RegIrqFlags, 0xFF)); }
    }

    /** `lora_init`, lines 149-161: frequency, power and modem. */
    method ConfigureRf(ghost h: seq<SpiEvent>, ghost pre: seq<seq<byte>>)
      requires spi == h + Concat(Frames(chip, h, pre))
      modifies this
      ensures spi == h + Concat(Frames(chip, h, pre + RfMosi()))
    {
      SetFrequency(h, pre);
      SetPower(h, pre + FrequencyMosi());
      ConfigureModem(h, pre + FrequencyMosi() + PowerMosi());
      Append3(pre, FrequencyMosi(), PowerMosi(), ModemMosi());
    }

    /** `lora_init`, lines 162-170: preamble, sync word, FIFO and IRQ set-up. */
    method ConfigurePacket(ghost h: seq<SpiEvent>, ghost pre: seq<seq<byte>>)
      requires spi == h + Concat(Frames(chip, h, pre))
      modifies this
      ensures spi == h + Concat(Frames(chip, h, pre + PacketMosi()))
    {
      ConfigureFraming(h, pre);
      ConfigureFifo(h, pre + FramingMosi());
      ConfigureIrq(h, pre + FramingMosi() + FifoMosi());
      Append3(pre, FramingMosi(), FifoMosi(), IrqMosi());
    }

    /** `lora_send_bytes`, lines 188-192: Standby, FIFO pointer to 0, the
        payload into the FIFO, its length into RegPayloadLength. */
    method LoadPayload(data: seq<byte>, ghost h: seq<SpiEvent>)
      requires 0 < |data| <= 255 && spi == h
      modifies this
      ensures spi == h + Concat(Frames(chip, h, SetupMosi(data)[..4]))
    {
      assert spi == h + Concat(Frames(chip, h, []));
      ghost var q := SetModeStep(ModeStdby, h, []);
      q := WriteRegStep(RegFifoAddrPtr, 0x00, h, q);
      q := WriteFifoStep(data, h, q);
      q := WriteRegStep(RegPayloadLength, |data|, h, q);
      assert q == SetupMosi(data)[..4];
    }

    /** `lora_send_bytes`, lines 194-199: IRQ flags cleared, DIO0 mapped to
        TxDone, then TX. */
    method StartTx(data: seq<byte>, ghost h: seq<SpiEvent>)
      requires 0 < |data| <= 255 && spi == h + Concat(Frames(chip, h, SetupMosi(data)[..4]))
      modifies this
      ensures spi == h + Concat(Frames(chip, h, SetupMosi(data)))
    {
      ghost var q := WriteRegStep(RegIrqFlags, 0xFF, h, SetupMosi(data)[..4]);
      q := WriteRegStep(RegDioMapping1, 0x40, h, q);
      q := SetModeStep(ModeTx, h, q);
      assert q == SetupMosi(data);
    }
  }
}
