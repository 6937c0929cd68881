/** The AHT10 sensor adapter (firmware/main.c:14-19, 271-372): the
    measurement trigger and 6-byte read over the bus engine, the decoding of
    the response into humidity and temperature, and the fixed-point split
    used to display a reading.

    The decoder works on exact reals where the firmware uses `float`; the
    display step rounds them to hundredths with C's truncating `(int)` cast,
    `/` and `%`, written out below. */
module Aht10 {
  import opened Bits
  import opened Logs
  import opened I2cLine
  import opened I2cBus
  import opened I2cTxn

  /** 7-bit bus address of the sensor. */
  const Addr: byte := 0x38
  /** The measurement-trigger command. */
  const Trigger: seq<byte> := [0xAC, 0x33, 0x00]
  /** 2^20, the full scale of both 20-bit fields. */
  const FullScale := 0x10_0000


  /** A decoded reading, in degrees Celsius and percent relative humidity. */
  datatype Reading = Reading(temperature: real, humidity: real)

  // ---------------------------------------------------------------------
  // The 6-byte response

  /** `raw_h`: the 24 bits of bytes 1..3 shifted right by 4, i.e. the top
      20 bits of that span. The or of the shifted bytes is a sum, since the
      fields do not overlap. */
  function RawHumidity(buf: seq<byte>): (r: nat)
    requires |buf| == 6
    ensures r < FullScale
  {
    (buf[1] as int * 0x1_0000 + buf[2] as int * 0x100 + buf[3]) / 16
  }

  /** `raw_t`: the low nibble of byte 3 followed by bytes 4 and 5. */
  function RawTemperature(buf: seq<byte>): (r: nat)
    requires |buf| == 6
    ensures r < FullScale
  {
    (buf[3] % 16) as int * 0x1_0000 + buf[4] as int * 0x100 + buf[5]
  }

  /** The response a sensor sends for the raw fields `rh` and `rt`, after
      the status byte `status`: the inverse of the two extractions above. */
  function Encode(status: byte, rh: nat, rt: nat): (buf: seq<byte>)
    requires rh < FullScale && rt < FullScale
    ensures |buf| == 6 && buf[0] == status
  {
    [status, rh / 0x1000, rh / 16 % 256, rh % 16 * 16 + rt / 0x1_0000, rt / 0x100 % 256, rt % 256]
  }

  /** Decoding an encoded response gives back both raw fields. */
  lemma RawOfEncode(status: byte, rh: nat, rt: nat)
    requires rh < FullScale && rt < FullScale
    ensures RawHumidity(Encode(status, rh, rt)) == rh
    ensures RawTemperature(Encode(status, rh, rt)) == rt
  {
    var b := Encode(status, rh, rt);
    var b1: int, b2: int, b3: int, b4: int, b5: int := b[1], b[2], b[3], b[4], b[5];
    var lo := rt / 0x1_0000;
    assert lo < 16;
    assert b1 * 0x100 + b2 == rh / 16;
    assert b1 * 0x1_0000 + b2 * 0x100 == rh / 16 * 0x100;
    assert rh / 16 * 0x100 + b3 == (rh * 16) + lo;
    assert b3 % 16 == lo;
    assert b4 * 0x100 + b5 == rt % 0x1_0000;
  }

  /** Every response is the encoding of its own raw fields: the layout
      holds exactly a status byte and two 20-bit fields, so the humidity
      field is determined by bytes 1..3 and the temperature field by the low
      nibble of byte 3 and bytes 4..5. */
  lemma EncodeOfRaw(buf: seq<byte>)
    requires |buf| == 6
    ensures Encode(buf[0], RawHumidity(buf), RawTemperature(buf)) == buf
  {
    var rh, rt := RawHumidity(buf), RawTemperature(buf);
    var b1: int, b2: int, b3: int, b4: int, b5: int := buf[1], buf[2], buf[3], buf[4], buf[5];
    assert rh == b1 * 0x1000 + b2 * 16 + b3 / 16;
    assert rh / 0x1000 == b1;
    assert rh / 16 == b1 * 0x100 + b2;
    assert rh / 16 % 256 == b2;
    assert rh % 16 == b3 / 16;
    assert rt / 0x1_0000 == b3 % 16;
    assert rt / 0x100 == (b3 % 16) * 0x100 + b4;
    assert rt / 0x100 % 256 == b4;
    assert rt % 256 == b5;
  }

  /** `aht10_parse`: relative humidity is `raw_h * 100 / 2^20` and the
      temperature `raw_t * 200 / 2^20 - 50`; both lie in their sensor's
      range, humidity in [0, 100) and temperature in [-50, 150). */
  function Parse(buf: seq<byte>): (r: Reading)
    requires |buf| == 6
    ensures 0.0 <= r.humidity < 100.0
    ensures -50.0 <= r.temperature < 150.0
  {
    Reading(RawTemperature(buf) as real * 200.0 / FullScale as real - 50.0,
            RawHumidity(buf) as real * 100.0 / FullScale as real)
  }

  /** Parsing a response built from two raw fields yields the readings those
      fields stand for, whatever the status byte. */
  lemma ParseEncode(status: byte, rh: nat, rt: nat)
    requires rh < FullScale && rt < FullScale
    ensures Parse(Encode(status, rh, rt)) ==
            Reading(rt as real * 200.0 / FullScale as real - 50.0, rh as real * 100.0 / FullScale as real)
  {
    RawOfEncode(status, rh, rt);
  }

  // ---------------------------------------------------------------------
  // Trigger and read over the bus

  /** The trigger write: START, 0x70 (address 0x38, write), 0xAC 0x33 0x00, STOP. */
  function TriggerTxn(peer: Peer, h: Log<LineOp>): Log<Event>
  {
    WriteTxn(peer, h, Addr, Trigger)
  }

  /** The response read that follows an acknowledged trigger. */
  function ResponseTxn(peer: Peer, h: Log<LineOp>): Log<Event>
  {
    ReadTxn(peer, Replay(h, TriggerTxn(peer, h)), Addr, 6)
  }

  /** The trigger sends address byte 0x70 and then the command bytes 0xAC,
      0x33, 0x00 in order, stopping after the first refused byte; it
      succeeds iff all four bytes were acknowledged. */
  lemma TriggerShape(peer: Peer, h: Log<LineOp>)
    ensures var w := Items(TriggerTxn(peer, h));
            3 <= |w| <= 6 && w[0] == StartCond && w[|w| - 1] == StopCond &&
            w[1].Tx? && w[1].value == 0x70 &&
            (|w| > 3 ==> w[1].ack == 0 && w[2].Tx? && w[2].value == 0xAC) &&
            (|w| > 4 ==> w[2].ack == 0 && w[3].Tx? && w[3].value == 0x33) &&
            (|w| > 5 ==> w[3].ack == 0 && w[4].Tx? && w[4].value == 0x00) &&
            (|w| < 6 ==> w[|w| - 2].Tx? && w[|w| - 2].ack != 0) &&
            (AllAcked(TriggerTxn(peer, h)) <==>
               |w| == 6 && w[1].ack == 0 && w[2].ack == 0 && w[3].ack == 0 && w[4].ack == 0)
  {
    var t := WriteTxn(peer, h, Addr, Trigger);
    var w := Items(t);
    WriteTxnShape(peer, h, Addr, Trigger);
    assert AddrByte(Addr, 0) == 0x70;
    if |w| > 3 { assert w[1].ack == 0 && w[2].value == Trigger[0]; }
    if |w| > 4 { assert w[2].ack == 0 && w[3].value == Trigger[1]; }
    if |w| > 5 { assert w[3].ack == 0 && w[4].value == Trigger[2]; }
    if AllAcked(t) { assert |w| == 6 && w[4].ack == 0; }
  }

  /** The six-byte read from the sensor, after any history `h2`: address
      byte 0x71, then, when acknowledged, six received bytes with all but
      the last acknowledged. */
  lemma ReadSixShape(peer: Peer, h2: Log<LineOp>)
    ensures var r := Items(ReadTxn(peer, h2, Addr, 6));
            r[0] == StartCond && r[|r| - 1] == StopCond &&
            r[1].Tx? && r[1].value == 0x71 &&
            (AllAcked(ReadTxn(peer, h2, Addr, 6)) <==> r[1].ack == 0) &&
            (r[1].ack == 0 ==> |r| == 9 && forall k :: 2 <= k < 8 ==> r[k].Rx? && (r[k].sendAck <==> k < 7)) &&
            (r[1].ack != 0 ==> |r| == 3)
  {
    ReadTxnShape(peer, h2, Addr, 6);
    var r := Items(ReadTxn(peer, h2, Addr, 6));
    assert AddrByte(Addr, 1) == 0x71;
    if r[1].ack == 0 {
      forall k | 2 <= k < 8
        ensures r[k].Rx? && (r[k].sendAck <==> k < 7)
      {
        assert r[k].sendAck == (k - 1 < 6);
      }
    }
  }

  /** The bytes the six-byte read delivers are those of its receive events,
      in order: six of them when the address was acknowledged, none otherwise. */
  lemma ReadSixValues(peer: Peer, h2: Log<LineOp>)
    ensures var r := Items(ReadTxn(peer, h2, Addr, 6));
            var vs := RxValues(ReadTxn(peer, h2, Addr, 6));
            |r| >= 3 && r[1].Tx? &&
            (r[1].ack == 0 ==> |r| == 9 && |vs| == 6 &&
                               forall k :: 0 <= k < 6 ==> r[k + 2].Rx? && vs[k] == r[k + 2].value) &&
            (r[1].ack != 0 ==> vs == [])
  {
    ReadTxnShape(peer, h2, Addr, 6);
  }

  /** The response read sends address byte 0x71 (address 0x38, read); when
      that is acknowledged it receives six bytes, acknowledging the first
      five and not the sixth, and delivers them in order. */
  lemma ResponseShape(peer: Peer, h: Log<LineOp>)
    ensures var r := Items(ResponseTxn(peer, h));
            r[0] == StartCond && r[|r| - 1] == StopCond &&
            r[1].Tx? && r[1].value == 0x71 &&
            (AllAcked(ResponseTxn(peer, h)) <==> r[1].ack == 0) &&
            (r[1].ack == 0 ==>
               |r| == 9 && |RxValues(ResponseTxn(peer, h))| == 6 &&
               (forall k :: 2 <= k < 8 ==> r[k].Rx? && (r[k].sendAck <==> k < 7)) &&
               (forall k :: 0 <= k < 6 ==> RxValues(ResponseTxn(peer, h))[k] == r[k + 2].value))
    ensures var r := Items(ResponseTxn(peer, h));
            r[1].ack != 0 ==> RxValues(ResponseTxn(peer, h)) == [] && |r| == 3
  {
    ReadSixShape(peer, Replay(h, TriggerTxn(peer, h)));
    ReadSixValues(peer, Replay(h, TriggerTxn(peer, h)));
  }

  /** `aht10_trigger_and_read` (the full version, firmware/main.c:271-291):
      the trigger write; on failure -1 with nothing read. Otherwise the
      conversion wait and the 6-byte read; 0 iff the read's address was
      acknowledged, and then `buf` holds the six received bytes. */
  method TriggerAndRead(bus: Bus, buf: array<byte>) returns (r: int)
    requires buf.Length == 6
    modifies bus, buf
    ensures var w := TriggerTxn(bus.peer, old(bus.ops));
            !AllAcked(w) ==> r == -1 && bus.ops == Replay(old(bus.ops), w) && buf[..] == old(buf[..])
    ensures var w := TriggerTxn(bus.peer, old(bus.ops));
            var rd := ResponseTxn(bus.peer, old(bus.ops));
            AllAcked(w) ==>
              bus.ops == Replay(Replay(old(bus.ops), w), rd) &&
              r == (if AllAcked(rd) then 0 else -1) &&
              (r == 0 ==> buf[..] == RxValues(rd)) &&
              (r != 0 ==> buf[..] == old(buf[..]))
  {
    var w := bus.WriteBytes(Addr, Trigger);
    if w < 0 {
      return -1;
    }
    // the 80 ms conversion wait: a busy wait, no bus activity
    var rd := bus.ReadBytes(Addr, buf, 6);
    if rd < 0 {
      return -1;
    }
    assert buf[..] == buf[..6];
    r := 0;
  }

  /** What `aht10_get` yields after history `h`: the reading decoded from
      the six received bytes when the trigger and the read both succeeded,
      nothing otherwise. */
  function Measurement(peer: Peer, h: Log<LineOp>): Option<Reading>
  {
    var rd := ResponseTxn(peer, h);
    if AllAcked(TriggerTxn(peer, h)) && AllAcked(rd) then
      ResponseShape(peer, h);
      Some(Parse(RxValues(rd)))
    else None
  }

  /** `aht10_get`: 0 and the decoded reading when the trigger and read
      succeeded, -1 and no decoding otherwise. */
  method Get(bus: Bus) returns (r: int, reading: Option<Reading>)
    modifies bus
    ensures reading == Measurement(bus.peer, old(bus.ops))
    ensures r == (if reading.Some? then 0 else -1)
    ensures var w := TriggerTxn(bus.peer, old(bus.ops));
            bus.ops == if AllAcked(w) then Replay(Replay(old(bus.ops), w), ResponseTxn(bus.peer, old(bus.ops)))
                       else Replay(old(bus.ops), w)
  {
    var buf := new byte[6];
    var t := TriggerAndRead(bus, buf);
    if t < 0 {
      return -1, None;
    }
    r, reading := 0, Some(Parse(buf[..]));
  }

  // ---------------------------------------------------------------------
  // Display in hundredths (show_aht10)

  /** C's `(int)` conversion: the integer part, rounded toward zero. */
  function Trunc(x: real): (n: int)
    ensures x >= 0.0 ==> 0 <= n && n as real <= x < n as real + 1.0
    ensures x < 0.0 ==> n <= 0 && n as real - 1.0 < x <= n as real
  {
    if x >= 0.0 then x.Floor else -((-x).Floor)
  }

  /** `t100`: the temperature in hundredths, rounded half away from zero,
      so within half a hundredth of the exact value and of its sign. */
  function Centi(t: real): (n: int)
    ensures -0.5 <= n as real - t * 100.0 <= 0.5
    ensures (t >= 0.0 ==> n >= 0) && (t < 0.0 ==> n <= 0)
  {
    Trunc(t * 100.0 + (if t >= 0.0 then 0.5 else -0.5))
  }

  /** `h100`: the humidity in hundredths, rounded half up; for a
      non-negative value, the nearest hundredth. */
  function CentiUp(h: real): (n: int)
    ensures h >= 0.0 ==> n >= 0 && -0.5 < n as real - h * 100.0 <= 0.5
  {
    Trunc(h * 100.0 + 0.5)
  }

  /** For a non-negative value both conversions give the same hundredths. */
  lemma CentiNearest(t: real)
    ensures t >= 0.0 ==> Centi(t) == CentiUp(t)
  {
  }

  /** A decoded reading displays as -5000..15000 hundredths of a degree and
      0..10000 hundredths of a percent. */
  lemma CentiRange(buf: seq<byte>)
    requires |buf| == 6
    ensures -5000 <= Centi(Parse(buf).temperature) <= 15000
    ensures 0 <= CentiUp(Parse(buf).humidity) <= 10000
  {
    var p := Parse(buf);
    CentiNearest(p.temperature);
    CentiNearest(p.humidity);
  }

  /** The sensor test vectors: raw humidity 0x19999 reads as 10.00 %RH and
      raw temperature 0x33333 as -10.00 degrees. */
  lemma TestVectors(status: byte)
    ensures CentiUp(Parse(Encode(status, 0x19999, 0x33333)).humidity) == 1000
    ensures Centi(Parse(Encode(status, 0x19999, 0x33333)).temperature) == -1000
  {
    ParseEncode(status, 0x19999, 0x33333);
    var h := 0x19999 as real * 100.0 / FullScale as real;
    var t := 0x33333 as real * 200.0 / FullScale as real - 50.0;
    assert 1000.0 <= h * 100.0 + 0.5 < 1001.0;
    assert -1001.0 < t * 100.0 - 0.5 <= -1000.0;
  }

  /** C's `/` on int: the quotient rounded toward zero. */
  function CDiv(a: int, b: nat): int
    requires b > 0
  {
    if a >= 0 then a / b else -((-a) / b)
  }

  /** C's `%` on int: the remainder that goes with `CDiv`, signed like `a`. */
  function CRem(a: int, b: nat): int
    requires b > 0
  {
    a - b * CDiv(a, b)
  }

  function Abs(a: int): nat
  {
    if a < 0 then -a else a
  }

  /** The split of `v` hundredths into the integer part and the two digits
      after the point: `v / 100` and `|v % 100|` in C. The fraction is a
      two-digit number and the two parts together give back the magnitude
      of `v`; the integer part has the sign of `v` unless it is 0. */
  function Split(v: int): (p: (int, nat))
    ensures p.1 < 100 && Abs(p.0) * 100 + p.1 == Abs(v)
    ensures (v >= 0 ==> p.0 >= 0) && (v < 0 ==> p.0 <= 0)
  {
    (CDiv(v, 100), Abs(CRem(v, 100)))
  }

  /** The decimal digits of `n`, most significant first. */
  function Digits(n: nat): (s: string)
    ensures |s| >= 1 && forall k :: 0 <= k < |s| ==> '0' <= s[k] <= '9'
  {
    if n < 10 then [Digit(n)] else Digits(n / 10) + [Digit(n % 10)]
  }

  function Digit(d: nat): (c: char)
    requires d < 10
    ensures '0' <= c <= '9'
  {
    ('0' as int + d) as char
  }

  /** `%d`: a minus sign for a negative value, then its digits. */
  function FormatInt(i: int): string
  {
    if i < 0 then "-" + Digits(-i) else Digits(i)
  }

  /** `%02d` of a value below 100. */
  function TwoDigits(f: nat): (s: string)
    requires f < 100
    ensures |s| == 2
  {
    [Digit(f / 10), Digit(f % 10)]
  }

  /** The `%d.%02d` text show_aht10 prints for `v` hundredths: the whole
      part, a point, and the two digits of `|v| % 100`; it starts with a
      minus sign iff `v <= -100`, so the sign of -99..-1 is lost. */
  function Text(v: int): (s: string)
    ensures |s| >= 4 && s[|s| - 3] == '.' && s[|s| - 2..] == TwoDigits(Abs(v) % 100)
    ensures s[0] == '-' <==> v <= -100
  {
    var p := Split(v);
    FormatInt(p.0) + "." + TwoDigits(p.1)
  }

  /** The value of a string of decimal digits. */
  function DecimalValue(s: string): nat
  {
    if s == [] then 0
    else
      var c := s[|s| - 1];
      10 * DecimalValue(s[..|s| - 1]) + (if '0' <= c <= '9' then c as int - '0' as int else 0)
  }

  /** The number of hundredths a reader takes from a text of the form
      `[-]digits.dd`. */
  function ReadCenti(s: string): int
  {
    var neg := |s| > 0 && s[0] == '-';
    var body := if neg then s[1..] else s;
    if |body| < 3 then 0
    else
      var m := DecimalValue(body[..|body| - 3]) * 100 + DecimalValue(body[|body| - 2..]);
      if neg then -m else m
  }

  lemma {:induction false} DigitsValue(n: nat)
    ensures DecimalValue(Digits(n)) == n
  {
    if n >= 10 {
      DigitsValue(n / 10);
      var s := Digits(n);
      assert s[..|s| - 1] == Digits(n / 10);
    }
  }

  lemma DigitValue(d: nat)
    requires d < 10
    ensures DecimalValue([Digit(d)]) == d
  {
    assert [Digit(d)][..0] == [];
  }

  lemma TwoDigitsValue(f: nat)
    requires f < 100
    ensures DecimalValue(TwoDigits(f)) == f
  {
    var s := TwoDigits(f);
    assert s[..1] == [Digit(f / 10)];
    DigitValue(f / 10);
    assert DecimalValue(s) == 10 * DecimalValue(s[..1]) + f % 10;
  }

  /** A reader gets `m` hundredths back from digits, a point and two more
      digits, with or without a leading minus sign. */
  lemma ReadBack(neg: bool, whole: nat, f: nat)
    requires f < 100
    ensures ReadCenti((if neg then "-" else "") + Digits(whole) + "." + TwoDigits(f)) ==
            (if neg then -(whole * 100 + f) else whole * 100 + f)
  {
    var body := Digits(whole) + "." + TwoDigits(f);
    var s := (if neg then "-" else "") + body;
    assert body[0] == Digits(whole)[0];
    assert body[0] != '-';
    assert (|s| > 0 && s[0] == '-') == neg;
    var b := if neg then s[1..] else s;
    assert b == body;
    assert body[..|body| - 3] == Digits(whole);
    assert body[|body| - 2..] == TwoDigits(f);
    DigitsValue(whole);
    TwoDigitsValue(f);
    var m := DecimalValue(body[..|body| - 3]) * 100 + DecimalValue(body[|body| - 2..]);
    assert m == whole * 100 + f;
    assert ReadCenti(s) == if neg then -m else m;
    assert s == (if neg then "-" else "") + Digits(whole) + "." + TwoDigits(f);
  }

  /** The display is faithful whenever the integer part keeps the sign: for
      every `v` outside -99..-1 a reader gets `v` back from the text. */
  lemma TextReadBack(v: int)
    requires v >= 0 || v <= -100
    ensures ReadCenti(Text(v)) == v
  {
    var p := Split(v);
    if v >= 0 {
      var whole: nat := p.0;
      assert whole * 100 + p.1 == v;
      assert Text(v) == "" + Digits(whole) + "." + TwoDigits(p.1);
      ReadBack(false, whole, p.1);
    } else {
      assert p.0 < 0 by {
        assert Abs(p.0) * 100 + p.1 == -v;
      }
      var whole: nat := -p.0;
      assert -(whole * 100 + p.1) == v;
      assert FormatInt(p.0) == "-" + Digits(whole);
      assert Text(v) == "-" + Digits(whole) + "." + TwoDigits(p.1);
      ReadBack(true, whole, p.1);
    }
  }

  /** For -99..-1 hundredths the integer part is 0 and the minus sign is
      lost: -0.50 degrees is printed as "0.50", the same text as +0.50. */
  lemma TextLosesSign()
    ensures Text(-50) == Text(50) == "0.50"
    ensures ReadCenti(Text(-50)) == 50
  {
    assert Split(-50) == (0, 50);
    assert Split(50) == (0, 50);
    assert TwoDigits(50) == "50";
    assert Digits(0) == "0";
    TextReadBack(50);
  }

  /** The display with the sign printed on its own, before the magnitude's
      integer part and two decimals. */
  function SignedText(v: int): string
  {
    (if v < 0 then "-" else "") + Digits(Abs(v) / 100) + "." + TwoDigits(Abs(v) % 100)
  }

  /** Every value reads back from its signed text. */
  lemma SignedTextReadBack(v: int)
    ensures ReadCenti(SignedText(v)) == v
  {
    ReadBack(v < 0, Abs(v) / 100, Abs(v) % 100);
  }

  /** The two displays agree wherever the one as written is faithful. */
  lemma SignedTextAgrees(v: int)
    requires v >= 0 || v <= -100
    ensures SignedText(v) == Text(v)
  {
    var p := Split(v);
    if v >= 0 {
      assert p.0 == v / 100 && p.1 == v % 100;
    } else {
      assert p.0 == -(Abs(v) / 100) && p.1 == Abs(v) % 100;
      assert FormatInt(p.0) == "-" + Digits(Abs(v) / 100);
    }
  }
}
