/** The line driver of the bit-banged two-wire bus (firmware/main.c): the
    packing of the SCL, OE and SDA levels into the write register, the
    calls the bus engine makes on it, and the call sequences of the
    framing and bit-transfer primitives. */
module I2cLine {
  import opened Bits
  import opened Logs

  /** The value `i2c_w_raw` writes: bit 0 SCL, bit 1 OE (drive SDA), bit 2 SDA.
      Each argument is masked to its low bit, so every field can be read back. */
  function Pack(scl: byte, oe: byte, sda: byte): (v: int)
    ensures 0 <= v < 8
    ensures v % 2 == scl % 2 && v / 2 % 2 == oe % 2 && v / 4 == sda % 2
  {
    scl % 2 + 2 * (oe % 2) + 4 * (sda % 2)
  }

  /** Packing is injective on single bits: distinct line levels give distinct
      register values. */
  lemma PackInjective(a: bit, b: bit, c: bit, x: bit, y: bit, z: bit)
    requires Pack(a, b, c) == Pack(x, y, z)
    ensures a == x && b == y && c == z
  {
    var v := Pack(a, b, c);
    assert a == a % 2 == v % 2 == x % 2 == x;
    assert b == b % 2 == v / 2 % 2 == y % 2 == y;
    assert c == c % 2 == v / 4 == z % 2 == z;
  }

  /** One call on the line driver, as recorded in the bus trace. The SDA
      read (`i2c_r_sda`) records the level it returned. */
  datatype LineOp =
    | Release              // i2c_release_sda
    | DriveLow             // i2c_drive_sda_low
    | Scl(high: bool)      // i2c_set_scl
    | Sampled(level: bit)  // i2c_r_sda

  /** The register value each writing call stores, as firmware/main.c:89-97
      has it: releasing writes OE=0, driving low writes OE=1 with SDA=0, and
      setting the clock writes that level with OE=0. */
  function DriverValue(op: LineOp): (v: int)
    requires !op.Sampled?
    ensures 0 <= v < 8
    ensures v / 2 % 2 == (if op.DriveLow? then 1 else 0)
    ensures v / 4 == 0
    ensures v % 2 == (if op.Scl? && op.high then 1 else 0)
  {
    match op
    case Release => Pack(0, 0, 0)
    case DriveLow => Pack(0, 1, 0)
    case Scl(high) => Pack(if high then 1 else 0, 0, 0)
  }

  /** The register values a trace writes, in order (SDA reads write nothing). */
  function RegisterWrites(ops: seq<LineOp>): (w: seq<int>)
    ensures |w| <= |ops|
  {
    if ops == [] then []
    else
      var p := RegisterWrites(ops[..|ops| - 1]);
      var last := ops[|ops| - 1];
      if last.Sampled? then p else p + [DriverValue(last)]
  }

  /** Every value written fits the three register bits. */
  lemma {:induction false} RegisterWritesFit(ops: seq<LineOp>)
    ensures forall k :: 0 <= k < |RegisterWrites(ops)| ==> 0 <= RegisterWrites(ops)[k] < 8
    decreases |ops|
  {
    if ops != [] {
      var p := RegisterWrites(ops[..|ops| - 1]);
      RegisterWritesFit(ops[..|ops| - 1]);
      var last := ops[|ops| - 1];
      if !last.Sampled? {
        var x := DriverValue(last);
        assert 0 <= x < 8;
        forall k | 0 <= k < |p| + 1
          ensures 0 <= (p + [x])[k] < 8
        {
          if k < |p| {
            assert (p + [x])[k] == p[k];
          }
        }
      }
    }
  }

  /** `i2c_start`: release SDA, clock high, SDA low, clock low. */
  const StartOps: seq<LineOp> := [Release, Scl(true), DriveLow, Scl(false)]

  /** `i2c_stop`: SDA low, clock high, release SDA. */
  const StopOps: seq<LineOp> := [DriveLow, Scl(true), Release]

  /** `i2c_write_bit` (the first definition): a 1 releases SDA, a 0 drives
      it low; then one clock pulse. */
  function WriteBitOps(b: bit): seq<LineOp>
  {
    [if b == 1 then Release else DriveLow, Scl(true), Scl(false)]
  }

  /** `i2c_read_bit`: release SDA, clock high, sample, clock low. */
  function ReadBitOps(b: bit): seq<LineOp>
  {
    [Release, Scl(true), Sampled(b), Scl(false)]
  }

  /** Consecutive bit writes. */
  function WriteBitsOps(s: seq<bit>): (ops: seq<LineOp>)
    ensures |ops| == 3 * |s|
  {
    if s == [] then [] else WriteBitsOps(s[..|s| - 1]) + WriteBitOps(s[|s| - 1])
  }

  /** Consecutive bit reads that sampled the levels `s`. */
  function ReadBitsOps(s: seq<bit>): (ops: seq<LineOp>)
    ensures |ops| == 4 * |s|
  {
    if s == [] then [] else ReadBitsOps(s[..|s| - 1]) + ReadBitOps(s[|s| - 1])
  }

  lemma WriteBitsOpsSnoc(s: seq<bit>, b: bit)
    ensures WriteBitsOps(s + [b]) == WriteBitsOps(s) + WriteBitOps(b)
  {
    assert (s + [b])[..|s|] == s;
  }

  lemma ReadBitsOpsSnoc(s: seq<bit>, b: bit)
    ensures ReadBitsOps(s + [b]) == ReadBitsOps(s) + ReadBitOps(b)
  {
    assert (s + [b])[..|s|] == s;
  }

  /** The levels the SDA reads of a trace returned, in order. */
  function Samples(ops: seq<LineOp>): seq<bit>
  {
    if ops == [] then []
    else
      var last := ops[|ops| - 1];
      Samples(ops[..|ops| - 1]) + (if last.Sampled? then [last.level] else [])
  }

  lemma SamplesSnoc(ops: seq<LineOp>, op: LineOp)
    ensures Samples(ops + [op]) == Samples(ops) + (if op.Sampled? then [op.level] else [])
  {
    assert (ops + [op])[..|ops|] == ops;
  }

  lemma {:induction false} SamplesAppend(a: seq<LineOp>, b: seq<LineOp>)
    ensures Samples(a + b) == Samples(a) + Samples(b)
  {
    if b == [] {
      assert a + b == a;
    } else {
      var p, x := b[..|b| - 1], b[|b| - 1];
      assert b == p + [x];
      assert a + b == (a + p) + [x];
      SamplesAppend(a, p);
      SamplesSnoc(a + p, x);
      SamplesSnoc(p, x);
    }
  }

  /** A bit write samples nothing; a bit read samples exactly its level once. */
  lemma SamplesOfBitOps(b: bit)
    ensures Samples(WriteBitOps(b)) == [] && Samples(ReadBitOps(b)) == [b]
  {
    var w := WriteBitOps(b);
    var x := w[0];
    assert w == [] + [x] + [Scl(true)] + [Scl(false)];
    SamplesSnoc([], x);
    assert [] + [x] == [x];
    SamplesSnoc([x], Scl(true));
    assert [x] + [Scl(true)] == [x, Scl(true)];
    SamplesSnoc([x, Scl(true)], Scl(false));
    var r := ReadBitOps(b);
    assert r == [Release, Scl(true), Sampled(b)] + [Scl(false)];
    SamplesSnoc([], Release);
    assert [] + [Release] == [Release];
    SamplesSnoc([Release], Scl(true));
    assert [Release] + [Scl(true)] == [Release, Scl(true)];
    SamplesSnoc([Release, Scl(true)], Sampled(b));
    assert [Release, Scl(true)] + [Sampled(b)] == [Release, Scl(true), Sampled(b)];
    SamplesSnoc([Release, Scl(true), Sampled(b)], Scl(false));
  }

  /** Writing bits samples nothing. */
  lemma {:induction false} SamplesOfWrites(s: seq<bit>)
    ensures Samples(WriteBitsOps(s)) == []
  {
    if s != [] {
      var p, b := s[..|s| - 1], s[|s| - 1];
      SamplesOfWrites(p);
      SamplesOfBitOps(b);
      assert WriteBitsOps(s) == WriteBitsOps(p) + WriteBitOps(b);
      SamplesAppend(WriteBitsOps(p), WriteBitOps(b));
    }
  }

  /** Reading bits samples exactly those bits, in order. */
  lemma {:induction false} SamplesOfReads(s: seq<bit>)
    ensures Samples(ReadBitsOps(s)) == s
  {
    if s != [] {
      var p, b := s[..|s| - 1], s[|s| - 1];
      SamplesOfReads(p);
      SamplesOfBitOps(b);
      assert ReadBitsOps(s) == ReadBitsOps(p) + ReadBitOps(b);
      SamplesAppend(ReadBitsOps(p), ReadBitOps(b));
      assert s == p + [b];
    }
  }

  /** The eight bit writes of `i2c_write_byte`, bit 7 first. */
  function ByteOps(v: byte): seq<LineOp>
  {
    WriteBitsOps(MsbBits(v))
  }

  /** Bit `k` of the list lands in slots 3k..3k+2: the level is set while the
      clock is low, then the clock is pulsed. */
  lemma {:induction false} WriteBitsOpsAt(s: seq<bit>, k: nat)
    requires k < |s|
    ensures WriteBitsOps(s)[3 * k] == (if s[k] == 1 then Release else DriveLow)
    ensures WriteBitsOps(s)[3 * k + 1] == Scl(true)
    ensures WriteBitsOps(s)[3 * k + 2] == Scl(false)
  {
    if k < |s| - 1 {
      WriteBitsOpsAt(s[..|s| - 1], k);
    }
  }

  /** `i2c_write_byte` emits bit 7 first and bit 0 last: slot 3k carries bit
      7 - k of the byte, and reading the data slots back MSB first gives the byte. */
  lemma ByteOpsOrder(v: byte, k: nat)
    requires k < 8
    ensures |ByteOps(v)| == 24
    ensures ByteOps(v)[3 * k] == (if BitOf(v, 7 - k) == 1 then Release else DriveLow)
    ensures ByteOps(v)[3 * k + 1] == Scl(true) && ByteOps(v)[3 * k + 2] == Scl(false)
  {
    WriteBitsOpsAt(MsbBits(v), k);
    LowBitsAt(v, 8, k);
  }

  // The same calls, appended to a recorded history.

  /** `h` followed by the calls of `i2c_start`. */
  function StartOn(h: Log<LineOp>): Log<LineOp>
  {
    Then(Then(Then(Then(h, Release), Scl(true)), DriveLow), Scl(false))
  }

  /** `h` followed by the calls of `i2c_stop`. */
  function StopOn(h: Log<LineOp>): Log<LineOp>
  {
    Then(Then(Then(h, DriveLow), Scl(true)), Release)
  }

  /** `h` followed by the calls of one bit write. */
  function WriteBitOn(h: Log<LineOp>, b: bit): Log<LineOp>
  {
    Then(Then(Then(h, if b == 1 then Release else DriveLow), Scl(true)), Scl(false))
  }

  /** `h` followed by the calls of one bit read that sampled `b`. */
  function ReadBitOn(h: Log<LineOp>, b: bit): Log<LineOp>
  {
    Then(Then(Then(Then(h, Release), Scl(true)), Sampled(b)), Scl(false))
  }

  /** `h` followed by bit writes of the `k` low bits of `v`, most
      significant first. */
  function WriteLowOn(h: Log<LineOp>, v: nat, k: nat): Log<LineOp>
  {
    if k == 0 then h else WriteBitOn(WriteLowOn(h, v / 2, k - 1), v % 2)
  }

  /** `h` followed by bit reads that sampled the `k` low bits of `v`, most
      significant first. */
  function ReadLowOn(h: Log<LineOp>, v: nat, k: nat): Log<LineOp>
  {
    if k == 0 then h else ReadBitOn(ReadLowOn(h, v / 2, k - 1), v % 2)
  }

  /** Each call sequence appended to a history adds exactly the calls of the
      corresponding primitive above. */
  lemma OnItems(h: Log<LineOp>, b: bit)
    ensures Items(StartOn(h)) == Items(h) + StartOps
    ensures Items(StopOn(h)) == Items(h) + StopOps
    ensures Items(WriteBitOn(h, b)) == Items(h) + WriteBitOps(b)
    ensures Items(ReadBitOn(h, b)) == Items(h) + ReadBitOps(b)
  {
    var x := if b == 1 then Release else DriveLow;
    var i := Items(h);
    assert Items(Then(h, Release)) == i + [Release];
    assert Items(Then(h, DriveLow)) == i + [DriveLow];
    assert Items(Then(Then(h, Release), Scl(true))) == i + [Release, Scl(true)];
    assert Items(Then(Then(h, DriveLow), Scl(true))) == i + [DriveLow, Scl(true)];
    assert Items(Then(Then(h, x), Scl(true))) == i + [x, Scl(true)];
    assert Items(Then(Then(Then(h, Release), Scl(true)), DriveLow)) == i + [Release, Scl(true), DriveLow];
    assert Items(Then(Then(Then(h, Release), Scl(true)), Sampled(b))) == i + [Release, Scl(true), Sampled(b)];
  }

  /** Writing the low bits of `v` appends the writes of `LowBits(v, k)`. */
  lemma {:induction false} WriteLowOnItems(h: Log<LineOp>, v: nat, k: nat)
    ensures Items(WriteLowOn(h, v, k)) == Items(h) + WriteBitsOps(LowBits(v, k))
  {
    if k > 0 {
      var p := WriteLowOn(h, v / 2, k - 1);
      var w, x := WriteBitsOps(LowBits(v / 2, k - 1)), WriteBitOps(v % 2);
      WriteLowOnItems(h, v / 2, k - 1);
      OnItems(p, v % 2);
      assert LowBits(v, k) == LowBits(v / 2, k - 1) + [v % 2];
      WriteBitsOpsSnoc(LowBits(v / 2, k - 1), v % 2);
      AppendAssoc(Items(h), w, x);
    }
  }

  /** Reading the low bits of `v` appends the reads of `LowBits(v, k)`. */
  lemma {:induction false} ReadLowOnItems(h: Log<LineOp>, v: nat, k: nat)
    ensures Items(ReadLowOn(h, v, k)) == Items(h) + ReadBitsOps(LowBits(v, k))
  {
    if k > 0 {
      var p := ReadLowOn(h, v / 2, k - 1);
      var w, x := ReadBitsOps(LowBits(v / 2, k - 1)), ReadBitOps(v % 2);
      ReadLowOnItems(h, v / 2, k - 1);
      OnItems(p, v % 2);
      assert LowBits(v, k) == LowBits(v / 2, k - 1) + [v % 2];
      ReadBitsOpsSnoc(LowBits(v / 2, k - 1), v % 2);
      AppendAssoc(Items(h), w, x);
    }
  }
}
