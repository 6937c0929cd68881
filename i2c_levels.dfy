/** What the two-wire lines do under the driver's register writes.

    As written (firmware/main.c:89-97) every driver call rewrites all three
    fields: `i2c_drive_sda_low` writes SCL=0 and `i2c_set_scl` writes OE=0.
    So no write ever holds SCL high while SDA is driven low: the START and
    STOP conditions of `i2c_start`/`i2c_stop` never appear on the wire, and
    every bit the master clocks out (data 0s and its own ACKs included) is
    latched by the peer as 1.

    The corrected driver keeps the level of the line a call does not name,
    as the comments of `i2c_start`/`i2c_stop`/`i2c_write_bit` intend; under
    it the same call sequences frame the bus and transfer the intended bits. */
module I2cLevels {
  import opened Bits
  import opened I2cLine

  /** What the write register holds: the clock level, and whether SDA is
      driven (the SDA field itself is written 0 by every call). */
  datatype Lines = Lines(scl: bit, oe: bit)

  /** Open drain: SDA is low only while driven, otherwise the pull-up holds it high. */
  function SdaLevel(l: Lines): bit
  {
    if l.oe == 1 then 0 else 1
  }

  /** SDA falls while SCL stays high. */
  predicate StartCondition(a: Lines, b: Lines)
  {
    a.scl == 1 && b.scl == 1 && SdaLevel(a) == 1 && SdaLevel(b) == 0
  }

  /** SDA rises while SCL stays high. */
  predicate StopCondition(a: Lines, b: Lines)
  {
    a.scl == 1 && b.scl == 1 && SdaLevel(a) == 0 && SdaLevel(b) == 1
  }

  /** The SDA levels a peer latches: the level at every write that holds SCL high. */
  function Latched(ls: seq<Lines>): seq<bit>
  {
    if ls == [] then []
    else
      var last := ls[|ls| - 1];
      Latched(ls[..|ls| - 1]) + (if last.scl == 1 then [SdaLevel(last)] else [])
  }

  lemma LatchedSnoc(ls: seq<Lines>, l: Lines)
    ensures Latched(ls + [l]) == Latched(ls) + (if l.scl == 1 then [SdaLevel(l)] else [])
  {
    assert (ls + [l])[..|ls|] == ls;
  }

  lemma {:induction false} LatchedAppend(a: seq<Lines>, b: seq<Lines>)
    ensures Latched(a + b) == Latched(a) + Latched(b)
  {
    if b == [] {
      assert a + b == a;
    } else {
      var p, x := b[..|b| - 1], b[|b| - 1];
      assert b == p + [x];
      assert a + b == (a + p) + [x];
      LatchedAppend(a, p);
      LatchedSnoc(a + p, x);
      LatchedSnoc(p, x);
    }
  }

  // ---------------------------------------------------------------------
  // The driver as written

  /** The lines after one writing call, as firmware/main.c:89-97 writes them. */
  function AsWritten(op: LineOp): Lines
    requires !op.Sampled?
  {
    match op
    case Release => Lines(0, 0)
    case DriveLow => Lines(0, 1)
    case Scl(high) => Lines(if high then 1 else 0, 0)
  }

  /** These are exactly the register values the driver stores. */
  lemma AsWrittenIsRegister(op: LineOp)
    requires !op.Sampled?
    ensures Pack(AsWritten(op).scl, AsWritten(op).oe, 0) == DriverValue(op)
  {
  }

  /** The successive register contents of a trace under the driver as written. */
  function AsWrittenLines(ops: seq<LineOp>): seq<Lines>
  {
    if ops == [] then []
    else
      var last := ops[|ops| - 1];
      AsWrittenLines(ops[..|ops| - 1]) + (if last.Sampled? then [] else [AsWritten(last)])
  }

  /** Whatever the bus engine does, a write that raises SCL also releases SDA. */
  lemma {:induction false} AsWrittenSclHighReleases(ops: seq<LineOp>)
    ensures forall k :: 0 <= k < |AsWrittenLines(ops)| && AsWrittenLines(ops)[k].scl == 1 ==>
              SdaLevel(AsWrittenLines(ops)[k]) == 1
  {
    if ops != [] {
      AsWrittenSclHighReleases(ops[..|ops| - 1]);
    }
  }

  /** Hence no trace of the driver as written contains a START or a STOP condition. */
  lemma AsWrittenNeverFrames(ops: seq<LineOp>)
    ensures var ls := AsWrittenLines(ops);
            forall k :: 0 <= k < |ls| - 1 ==> !StartCondition(ls[k], ls[k + 1]) && !StopCondition(ls[k], ls[k + 1])
  {
    AsWrittenSclHighReleases(ops);
  }

  /** ... and the peer latches 1 for every bit, whatever the master sends. */
  lemma {:induction false} AsWrittenLatchesOnes(ops: seq<LineOp>)
    ensures forall k :: 0 <= k < |Latched(AsWrittenLines(ops))| ==> Latched(AsWrittenLines(ops))[k] == 1
  {
    var ls := AsWrittenLines(ops);
    AsWrittenSclHighReleases(ops);
    OnesWhenReleased(ls);
  }

  lemma {:induction false} OnesWhenReleased(ls: seq<Lines>)
    requires forall k :: 0 <= k < |ls| && ls[k].scl == 1 ==> SdaLevel(ls[k]) == 1
    ensures forall k :: 0 <= k < |Latched(ls)| ==> Latched(ls)[k] == 1
  {
    if ls != [] {
      OnesWhenReleased(ls[..|ls| - 1]);
    }
  }

  lemma AsWrittenLinesSnoc(ops: seq<LineOp>, op: LineOp)
    ensures AsWrittenLines(ops + [op]) == AsWrittenLines(ops) + (if op.Sampled? then [] else [AsWritten(op)])
  {
    assert (ops + [op])[..|ops|] == ops;
  }

  lemma {:induction false} AsWrittenLinesAppend(a: seq<LineOp>, b: seq<LineOp>)
    ensures AsWrittenLines(a + b) == AsWrittenLines(a) + AsWrittenLines(b)
  {
    if b == [] {
      assert a + b == a;
    } else {
      var p, x := b[..|b| - 1], b[|b| - 1];
      assert b == p + [x];
      assert a + b == (a + p) + [x];
      AsWrittenLinesAppend(a, p);
      AsWrittenLinesSnoc(a + p, x);
      AsWrittenLinesSnoc(p, x);
    }
  }

  lemma AsWritten3(x: LineOp, y: LineOp, z: LineOp)
    requires !x.Sampled? && !y.Sampled? && !z.Sampled?
    ensures AsWrittenLines([x, y, z]) == [AsWritten(x), AsWritten(y), AsWritten(z)]
  {
    AsWrittenLinesSnoc([], x);
    assert [] + [x] == [x];
    AsWrittenLinesSnoc([x], y);
    assert [x] + [y] == [x, y];
    AsWrittenLinesSnoc([x, y], z);
    assert [x, y] + [z] == [x, y, z];
  }

  lemma Latched3(a: Lines, b: Lines, c: Lines)
    ensures Latched([a, b, c]) == (if a.scl == 1 then [SdaLevel(a)] else [])
                                + (if b.scl == 1 then [SdaLevel(b)] else [])
                                + (if c.scl == 1 then [SdaLevel(c)] else [])
  {
    LatchedSnoc([], a);
    assert [] + [a] == [a];
    LatchedSnoc([a], b);
    assert [a] + [b] == [a, b];
    LatchedSnoc([a, b], c);
    assert [a, b] + [c] == [a, b, c];
  }

  /** Under the driver as written each bit write raises SCL exactly once. */
  lemma AsWrittenBit(b: bit)
    ensures |Latched(AsWrittenLines(WriteBitOps(b)))| == 1
  {
    var x := if b == 1 then Release else DriveLow;
    AsWritten3(x, Scl(true), Scl(false));
    Latched3(AsWritten(x), Lines(1, 0), Lines(0, 0));
  }

  lemma {:induction false} LatchedCount(s: seq<bit>)
    ensures |Latched(AsWrittenLines(WriteBitsOps(s)))| == |s|
  {
    if s != [] {
      var p, b := s[..|s| - 1], s[|s| - 1];
      LatchedCount(p);
      assert WriteBitsOps(s) == WriteBitsOps(p) + WriteBitOps(b);
      AsWrittenLinesAppend(WriteBitsOps(p), WriteBitOps(b));
      LatchedAppend(AsWrittenLines(WriteBitsOps(p)), AsWrittenLines(WriteBitOps(b)));
      AsWrittenBit(b);
    }
  }

  /** Every byte `i2c_write_byte` sends reaches the peer as 0xFF; the input
      that shows it is the AHT10's write-address byte 0x70 (that is, 0x38 << 1). */
  lemma AsWrittenByteArrivesAsFF(v: byte)
    ensures Latched(AsWrittenLines(ByteOps(v))) == [1, 1, 1, 1, 1, 1, 1, 1]
    ensures FromMsb(Latched(AsWrittenLines(ByteOps(v)))) == 0xFF
  {
    LatchedCount(MsbBits(v));
    AsWrittenLatchesOnes(ByteOps(v));
    var l := Latched(AsWrittenLines(ByteOps(v)));
    assert l == [1, 1, 1, 1, 1, 1, 1, 1];
    FromMsbOnes(l);
  }

  lemma {:induction false} FromMsbOnes(s: seq<bit>)
    requires forall k :: 0 <= k < |s| ==> s[k] == 1
    ensures FromMsb(s) == Pow2(|s|) - 1
  {
    if s != [] {
      FromMsbOnes(s[..|s| - 1]);
    }
  }

  // ---------------------------------------------------------------------
  // The corrected driver: each call changes only the line it names

  function Step(s: Lines, op: LineOp): Lines
  {
    match op
    case Release => Lines(s.scl, 0)
    case DriveLow => Lines(s.scl, 1)
    case Scl(high) => Lines(if high then 1 else 0, s.oe)
    case Sampled(_) => s
  }

  /** The lines after a trace, from state `s`. */
  function Final(ops: seq<LineOp>, s: Lines): Lines
  {
    if ops == [] then s else Step(Final(ops[..|ops| - 1], s), ops[|ops| - 1])
  }

  /** The successive register contents of a trace under the corrected driver. */
  function Tracked(ops: seq<LineOp>, s: Lines): seq<Lines>
  {
    if ops == [] then []
    else
      var last := ops[|ops| - 1];
      var init := ops[..|ops| - 1];
      Tracked(init, s) + (if last.Sampled? then [] else [Step(Final(init, s), last)])
  }

  lemma TrackedSnoc(ops: seq<LineOp>, op: LineOp, s: Lines)
    ensures Tracked(ops + [op], s) == Tracked(ops, s) + (if op.Sampled? then [] else [Step(Final(ops, s), op)])
    ensures Final(ops + [op], s) == Step(Final(ops, s), op)
  {
    assert (ops + [op])[..|ops|] == ops;
  }

  lemma {:induction false} TrackedAppend(a: seq<LineOp>, b: seq<LineOp>, s: Lines)
    ensures Tracked(a + b, s) == Tracked(a, s) + Tracked(b, Final(a, s))
    ensures Final(a + b, s) == Final(b, Final(a, s))
  {
    if b == [] {
      assert a + b == a;
    } else {
      var p, x := b[..|b| - 1], b[|b| - 1];
      assert b == p + [x];
      assert a + b == (a + p) + [x];
      TrackedAppend(a, p, s);
      TrackedSnoc(a + p, x, s);
      TrackedSnoc(p, x, Final(a, s));
    }
  }

  /** The register contents of a three-call sequence. */
  lemma Tracked3(x: LineOp, y: LineOp, z: LineOp, s: Lines)
    requires !x.Sampled? && !y.Sampled? && !z.Sampled?
    ensures var s1 := Step(s, x); var s2 := Step(s1, y);
            Tracked([x, y, z], s) == [s1, s2, Step(s2, z)] && Final([x, y, z], s) == Step(s2, z)
  {
    TrackedSnoc([], x, s);
    assert [] + [x] == [x];
    TrackedSnoc([x], y, s);
    assert [x] + [y] == [x, y];
    TrackedSnoc([x, y], z, s);
    assert [x, y] + [z] == [x, y, z];
  }

  /** START from any state: SDA falls while SCL is high, then SCL falls with
      SDA still held low. */
  lemma CorrectedStart(s: Lines)
    ensures var t := Tracked(StartOps, s);
            |t| == 4 && StartCondition(t[1], t[2]) && t[3] == Lines(0, 1)
    ensures Final(StartOps, s) == Lines(0, 1)
  {
    Tracked3(Release, Scl(true), DriveLow, s);
    assert StartOps == [Release, Scl(true), DriveLow] + [Scl(false)];
    TrackedSnoc([Release, Scl(true), DriveLow], Scl(false), s);
  }

  /** STOP with SCL low: SDA rises while SCL is high and the bus is left idle
      (SCL high, SDA released). */
  lemma CorrectedStop(s: Lines)
    requires s.scl == 0
    ensures var t := Tracked(StopOps, s);
            |t| == 3 && StopCondition(t[1], t[2])
    ensures Final(StopOps, s) == Lines(1, 0)
  {
    Tracked3(DriveLow, Scl(true), Release, s);
  }

  /** One bit write with SCL low: the peer latches exactly that bit, and SCL
      ends low for the next one. */
  lemma CorrectedBit(b: bit, s: Lines)
    requires s.scl == 0
    ensures Latched(Tracked(WriteBitOps(b), s)) == [b]
    ensures Final(WriteBitOps(b), s).scl == 0
  {
    var x := if b == 1 then Release else DriveLow;
    Tracked3(x, Scl(true), Scl(false), s);
    var t := Tracked(WriteBitOps(b), s);
    assert t == [Step(s, x)] + [Lines(1, 1 - b)] + [Lines(0, 1 - b)];
    LatchedSnoc([], Step(s, x));
    assert [] + [Step(s, x)] == [Step(s, x)];
    LatchedSnoc([Step(s, x)], Lines(1, 1 - b));
    assert [Step(s, x)] + [Lines(1, 1 - b)] == [Step(s, x), Lines(1, 1 - b)];
    LatchedSnoc([Step(s, x), Lines(1, 1 - b)], Lines(0, 1 - b));
  }

  /** Bit writes with SCL low: the peer latches exactly the bits written. */
  lemma {:induction false} CorrectedBits(bits: seq<bit>, s: Lines)
    requires s.scl == 0
    ensures Latched(Tracked(WriteBitsOps(bits), s)) == bits
    ensures Final(WriteBitsOps(bits), s).scl == 0
  {
    if bits != [] {
      var p := bits[..|bits| - 1];
      var b := bits[|bits| - 1];
      CorrectedBits(p, s);
      assert WriteBitsOps(bits) == WriteBitsOps(p) + WriteBitOps(b);
      TrackedAppend(WriteBitsOps(p), WriteBitOps(b), s);
      var m := Final(WriteBitsOps(p), s);
      CorrectedBit(b, m);
      LatchedAppend(Tracked(WriteBitsOps(p), s), Tracked(WriteBitOps(b), m));
    }
  }

  /** After START, `i2c_write_byte`'s eight bit writes deliver the byte: the
      levels the peer latches, read MSB first, are the byte itself. */
  lemma CorrectedByteAfterStart(v: byte, s: Lines)
    ensures var t := Final(StartOps, s);
            Latched(Tracked(ByteOps(v), t)) == MsbBits(v) &&
            FromMsb(Latched(Tracked(ByteOps(v), t))) == v
  {
    CorrectedStart(s);
    CorrectedBits(MsbBits(v), Final(StartOps, s));
    FromMsbOfBits(v);
  }
}
