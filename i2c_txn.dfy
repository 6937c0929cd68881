/** What the transactions of the bus engine (firmware/main.c:99-119,
    236-266) consist of, event by event: framing, the bytes sent and their
    order, which acknowledge ends a transaction early, and that every
    transaction ends with exactly one STOP. */
module I2cTxn {
  import opened Bits
  import opened Logs
  import opened I2cLine
  import opened I2cBus

  /** `AllAcked` reads the events of a history in order. */
  lemma {:induction false} AllAckedItems(l: Log<Event>)
    ensures AllAcked(l) ==>
            forall k :: 0 <= k < |Items(l)| && Items(l)[k].Tx? ==> Items(l)[k].ack == 0
    ensures (forall k :: 0 <= k < |Items(l)| && Items(l)[k].Tx? ==> Items(l)[k].ack == 0) ==>
            AllAcked(l)
  {
    match l
    case Empty =>
    case Then(init, e) =>
      AllAckedItems(init);
      var s := Items(init);
      assert Items(l) == s + [e];
      assert forall k :: 0 <= k < |s| ==> Items(l)[k] == s[k];
      assert Items(l)[|s|] == e;
  }

  lemma AddrEventsItems(peer: Peer, h: Log<LineOp>, addr7: byte, rw: bit)
    ensures Items(AddrEvents(peer, h, addr7, rw)) ==
            [StartCond, TxEvent(peer, StartOn(h), AddrByte(addr7, rw))]
  {
  }

  /** The data part of a write transaction: from byte `i` on, each byte is
      sent in order; the acknowledged ones are followed by the next, a
      refused one only by STOP, and STOP also follows the last byte. */
  lemma {:induction false} WriteFromShape(peer: Peer, h: Log<LineOp>, data: seq<byte>, i: nat, acc: Log<Event>)
    requires i <= |data|
    ensures var a := Items(acc);
            var r := Items(WriteFrom(peer, h, data, i, acc));
            |a| + 1 <= |r| <= |a| + |data| - i + 1 &&
            r[..|a|] == a && r[|r| - 1] == StopCond &&
            (forall k :: |a| <= k < |r| - 1 ==> r[k].Tx? && r[k].value == data[i + k - |a|]) &&
            (forall k :: |a| <= k < |r| - 2 ==> r[k].ack == 0) &&
            (|r| < |a| + |data| - i + 1 ==> |r| >= |a| + 2 && r[|r| - 2].ack != 0)
    decreases |data| - i
  {
    var a := Items(acc);
    if i < |data| {
      var e := TxEvent(peer, h, data[i]);
      if e.ack != 0 {
        assert Items(WriteFrom(peer, h, data, i, acc)) == a + [e] + [StopCond];
      } else {
        WriteFromShape(peer, EventOn(h, e), data, i + 1, Then(acc, e));
        var r := Items(WriteFrom(peer, h, data, i, acc));
        assert Items(Then(acc, e)) == a + [e];
        assert r[..|a|] == (a + [e])[..|a|];
        assert r[|a|] == e;
      }
    }
  }

  /** `i2c_write_bytes` (firmware/main.c:236-251): START, the address byte
      `(addr7 << 1) | 0`, then `data` in order. Every byte but the last sent
      was acknowledged; the transaction stops short of the data only after a
      refused byte, which is followed by nothing but STOP. STOP appears
      exactly once, at the end. It succeeds iff the last byte sent was
      acknowledged, and then every data byte was sent. */
  lemma WriteTxnShape(peer: Peer, h: Log<LineOp>, addr7: byte, data: seq<byte>)
    ensures var r := Items(WriteTxn(peer, h, addr7, data));
            3 <= |r| <= |data| + 3 &&
            r[0] == StartCond && r[|r| - 1] == StopCond &&
            r[1] == TxEvent(peer, StartOn(h), AddrByte(addr7, 0)) &&
            (forall k :: 2 <= k < |r| - 1 ==> r[k].Tx? && r[k].value == data[k - 2]) &&
            (forall k :: 1 <= k < |r| - 2 ==> r[k].ack == 0) &&
            (|r| < |data| + 3 ==> r[|r| - 2].ack != 0) &&
            (AllAcked(WriteTxn(peer, h, addr7, data)) <==> r[|r| - 2].ack == 0) &&
            (AllAcked(WriteTxn(peer, h, addr7, data)) ==> |r| == |data| + 3)
  {
    var head := AddrEvents(peer, h, addr7, 0);
    AddrEventsItems(peer, h, addr7, 0);
    var t := WriteTxn(peer, h, addr7, data);
    var r := Items(t);
    if head.last.ack == 0 {
      WriteFromShape(peer, Replay(h, head), data, 0, head);
      assert r[..2] == Items(head);
      assert r[0] == Items(head)[0] && r[1] == Items(head)[1];
    } else {
      assert r == Items(head) + [StopCond];
    }
    AllAckedItems(t);
  }

  /** A refused address byte ends a write at once: no data byte is sent. */
  lemma WriteAddrNack(peer: Peer, h: Log<LineOp>, addr7: byte, data: seq<byte>)
    requires TxEvent(peer, StartOn(h), AddrByte(addr7, 0)).ack != 0
    ensures Items(WriteTxn(peer, h, addr7, data)) ==
            [StartCond, TxEvent(peer, StartOn(h), AddrByte(addr7, 0)), StopCond]
    ensures !AllAcked(WriteTxn(peer, h, addr7, data))
  {
    WriteTxnShape(peer, h, addr7, data);
    AddrEventsItems(peer, h, addr7, 0);
  }

  /** The byte reads of a read transaction from byte `i` of `len` on: one
      received byte each, acknowledged iff it is not the last, then STOP. */
  lemma {:induction false} ReadFromShape(peer: Peer, h: Log<LineOp>, len: nat, i: nat, acc: Log<Event>)
    requires i <= len
    ensures var a := Items(acc);
            var r := Items(ReadFrom(peer, h, len, i, acc));
            |r| == |a| + len - i + 1 && r[..|a|] == a && r[|r| - 1] == StopCond &&
            (forall k :: |a| <= k < |r| - 1 ==> r[k].Rx? && r[k].sendAck == (i + k - |a| + 1 < len))
    decreases len - i
  {
    var a := Items(acc);
    if i < len {
      var e := RxEvent(peer, h, i + 1 < len);
      var ae := Items(Then(acc, e));
      ReadFromShape(peer, EventOn(h, e), len, i + 1, Then(acc, e));
      var r := Items(ReadFrom(peer, h, len, i, acc));
      assert r == Items(ReadFrom(peer, EventOn(h, e), len, i + 1, Then(acc, e)));
      assert ae == a + [e];
      assert r[..|a|] == ae[..|a|];
      assert r[|a|] == ae[|a|] == e;
      forall k | |a| < k < |r| - 1
        ensures r[k].Rx? && r[k].sendAck == (i + k - |a| + 1 < len)
      {
        assert |ae| <= k;
      }
    }
  }

  /** `i2c_read_bytes` (firmware/main.c:253-266): START and the address byte
      `(addr7 << 1) | 1`. A refused address is followed by STOP alone;
      otherwise exactly `len` bytes are received, each acknowledged iff it
      is not the last, then one STOP. The transaction succeeds iff the
      address was acknowledged, and it delivers the received bytes in order. */
  lemma ReadTxnShape(peer: Peer, h: Log<LineOp>, addr7: byte, len: nat)
    ensures var r := Items(ReadTxn(peer, h, addr7, len));
            3 <= |r| && r[0] == StartCond && r[|r| - 1] == StopCond &&
            r[1] == TxEvent(peer, StartOn(h), AddrByte(addr7, 1)) &&
            (r[1].ack != 0 ==> |r| == 3) &&
            (r[1].ack == 0 ==> |r| == len + 3) &&
            (forall k :: 2 <= k < |r| - 1 ==> r[k].Rx? && r[k].sendAck == (k - 1 < len)) &&
            (AllAcked(ReadTxn(peer, h, addr7, len)) <==> r[1].ack == 0)
    ensures var r := Items(ReadTxn(peer, h, addr7, len));
            var vs := RxValues(ReadTxn(peer, h, addr7, len));
            |vs| == |r| - 3 && forall k :: 0 <= k < |vs| ==> vs[k] == r[k + 2].value
  {
    var head := AddrEvents(peer, h, addr7, 1);
    AddrEventsItems(peer, h, addr7, 1);
    var t := ReadTxn(peer, h, addr7, len);
    var r := Items(t);
    if head.last.ack == 0 {
      ReadFromShape(peer, Replay(h, head), len, 0, head);
      assert r[..2] == Items(head);
      assert r[0] == Items(head)[0] && r[1] == Items(head)[1];
    } else {
      assert r == Items(head) + [StopCond];
    }
    AllAckedItems(t);
    RxValuesSplit(t, r);
  }

  /** The received values of a framed transaction are those of its events
      between the address byte and the final STOP. */
  lemma RxValuesSplit(t: Log<Event>, r: seq<Event>)
    requires r == Items(t) && 3 <= |r| && !r[0].Rx? && !r[1].Rx? && r[|r| - 1] == StopCond
    requires forall k :: 2 <= k < |r| - 1 ==> r[k].Rx?
    ensures |RxValues(t)| == |r| - 3 && forall k :: 0 <= k < |r| - 3 ==> RxValues(t)[k] == r[k + 2].value
  {
    assert t.Then?;
    var body := t.init;
    assert Items(body) == r[..|r| - 1];
    RxValuesTail(body, 2);
  }

  /** Dropping `n` leading events that received nothing. */
  lemma {:induction false} RxValuesTail(l: Log<Event>, n: nat)
    requires n <= |Items(l)|
    requires forall k :: 0 <= k < n ==> !Items(l)[k].Rx?
    requires forall k :: n <= k < |Items(l)| ==> Items(l)[k].Rx?
    ensures |RxValues(l)| == |Items(l)| - n
    ensures forall k :: 0 <= k < |Items(l)| - n ==> RxValues(l)[k] == Items(l)[k + n].value
  {
    match l
    case Empty =>
    case Then(init, e) =>
      var s := Items(init);
      assert Items(l) == s + [e];
      assert forall k :: 0 <= k < |s| ==> Items(l)[k] == s[k];
      assert Items(l)[|s|] == e;
      if |s| >= n {
        RxValuesTail(init, n);
      } else {
        assert |s| + 1 == n;
        NoRxValues(init);
      }
  }

  lemma {:induction false} NoRxValues(l: Log<Event>)
    requires forall k :: 0 <= k < |Items(l)| ==> !Items(l)[k].Rx?
    ensures RxValues(l) == []
  {
    match l
    case Empty =>
    case Then(init, e) =>
      var s := Items(init);
      assert Items(l) == s + [e];
      assert forall k :: 0 <= k < |s| ==> Items(l)[k] == s[k];
      assert Items(l)[|s|] == e;
      NoRxValues(init);
  }

  // ---------------------------------------------------------------------
  // The address scan

  /** The probes of a scan from address `addr` on: one write-direction
      address byte per address, in increasing order. */
  lemma {:induction false} ScanFromShape(peer: Peer, h: Log<LineOp>, addr: nat, acc: Log<Event>)
    requires addr <= ScanEnd
    ensures var a := Items(acc);
            var r := Items(ScanFrom(peer, h, addr, acc));
            |r| == |a| + ScanEnd - addr && r[..|a|] == a &&
            forall k :: |a| <= k < |r| ==> r[k].Tx? && r[k].value == (addr + k - |a|) * 2
    decreases ScanEnd - addr
  {
    if addr < ScanEnd {
      var t := TxEvent(peer, StartOn(h), addr * 2);
      var a := Items(acc);
      ScanFromShape(peer, StopOn(EventOn(StartOn(h), t)), addr + 1, Then(acc, t));
      var r := Items(ScanFrom(peer, h, addr, acc));
      assert Items(Then(acc, t)) == a + [t];
      assert r[..|a|] == (a + [t])[..|a|];
    }
  }

  /** An address is reported iff some acknowledged probe carried it. */
  lemma {:induction false} RespondersItems(txs: Log<Event>, x: int)
    ensures x in Responders(txs) <==>
            exists k :: 0 <= k < |Items(txs)| && Items(txs)[k].Tx? && Items(txs)[k].ack == 0 && Items(txs)[k].value / 2 == x
  {
    match txs
    case Empty =>
    case Then(init, t) =>
      RespondersItems(init, x);
      var s := Items(init);
      assert Items(txs) == s + [t];
      assert forall k :: 0 <= k < |s| ==> Items(txs)[k] == s[k];
      if x in Responders(txs) && x !in Responders(init) {
        assert Items(txs)[|s|] == t;
      }
  }

  /** `i2c_scan` (firmware/main.c:99-119) probes each address 0x03..0x77
      once, in increasing order, and reports exactly the addresses whose
      probe was acknowledged. */
  lemma ScanShape(peer: Peer, h: Log<LineOp>)
    ensures var t := Items(ScanTxs(peer, h));
            |t| == ScanEnd - ScanFirst &&
            (forall k :: 0 <= k < |t| ==> t[k].Tx? && t[k].value == (ScanFirst + k) * 2) &&
            (forall x :: x in Responders(ScanTxs(peer, h)) <==>
                         ScanFirst <= x < ScanEnd && t[x - ScanFirst].ack == 0)
  {
    ScanFromShape(peer, h, ScanFirst, Empty);
    var t := Items(ScanTxs(peer, h));
    forall x
      ensures x in Responders(ScanTxs(peer, h)) <==> ScanFirst <= x < ScanEnd && t[x - ScanFirst].ack == 0
    {
      RespondersItems(ScanTxs(peer, h), x);
      if ScanFirst <= x < ScanEnd && t[x - ScanFirst].ack == 0 {
        var k := x - ScanFirst;
        assert t[k].value / 2 == x;
      }
    }
  }

  /** Each probe of the scan is framed on its own: START, the address byte,
      STOP. */
  lemma {:induction false} ProbesFramed(txs: Log<Event>)
    ensures |Items(Probes(txs))| == 3 * |Items(txs)|
    ensures forall k :: 0 <= k < |Items(txs)| ==>
              Items(Probes(txs))[3 * k] == StartCond &&
              Items(Probes(txs))[3 * k + 1] == Items(txs)[k] &&
              Items(Probes(txs))[3 * k + 2] == StopCond
  {
    match txs
    case Empty =>
    case Then(init, t) =>
      ProbesFramed(init);
      var p := Items(Probes(init));
      var q := Probes(init);
      assert Items(Then(q, StartCond)) == p + [StartCond];
      assert Items(Then(Then(q, StartCond), t)) == p + [StartCond] + [t];
      assert Items(Probes(txs)) == p + [StartCond] + [t] + [StopCond];
      assert Items(txs) == Items(init) + [t];
  }
}
