/** What a call of `i2c_transact` does, stated over the trace it issues and
    the buffer it leaves, for every argument combination. */
module TransferProperties {
  import opened CTypes
  import opened Bus
  import opened Transfer

  /** The direction of the opening address: transmit whenever the transmit
      side is usable, whether or not the receive side is. */
  function OpeningDirection(txb: Buffer, txl: U8): Direction {
    if TxUsable(txb, txl) then Transmitter else Receiver
  }

  /** Any call with a usable side starts the bus and addresses the device
      once before anything else, in the direction of the first usable side
      (transmit first). This holds on the null-pointer path too. */
  lemma OpeningPair(ic: U8, addr: U16, txb: Buffer, txl: U8, rxb: Buffer, rxl: U8, incoming: seq<U8>)
    requires ValidCall(txb, txl, rxb, rxl, incoming)
    requires TxUsable(txb, txl) || RxUsable(rxb, rxl)
    ensures var t := Transact(ic, addr, txb, txl, rxb, rxl, incoming).trace;
      |t| >= 2 && t[0] == Start && t[1] == Addr(ic, OpeningDirection(txb, txl))
  {
  }

  /** A call with a usable side and no null transmit pointer under a non-zero
      length returns 0, and its trace is, position by position: Start, the
      opening address, `txl` sends carrying `txb[0..txl)` in order, then, if
      the receive side is usable, one bare Start and `rxl` receives, and a
      final Stop. */
  lemma SuccessTrace(ic: U8, addr: U16, txb: Buffer, txl: U8, rxb: Buffer, rxl: U8, incoming: seq<U8>)
    requires ValidCall(txb, txl, rxb, rxl, incoming)
    requires TxUsable(txb, txl) || RxUsable(rxb, rxl)
    requires txb.Buf? || txl == 0
    ensures var r := Transact(ic, addr, txb, txl, rxb, rxl, incoming);
      && r.Returned? && r.code == Success
      && |r.trace| == 2 + txl as int + (if RxUsable(rxb, rxl) then 1 + rxl as int else 0) + 1
      && r.trace[0] == Start
      && r.trace[1] == Addr(ic, OpeningDirection(txb, txl))
      && (forall i :: 0 <= i < txl as int ==> r.trace[2 + i] == Send(txb.bytes[i]))
      && (RxUsable(rxb, rxl) ==> r.trace[2 + txl as int] == Start)
      && (RxUsable(rxb, rxl) ==>
            forall i :: 3 + txl as int <= i < 3 + txl as int + rxl as int ==> r.trace[i] == Recv)
      && r.trace[|r.trace| - 1] == Stop
  {
    var r := Transact(ic, addr, txb, txl, rxb, rxl, incoming);
    var opening := [Start, Addr(ic, OpeningDirection(txb, txl))];
    var sent := if txb.Buf? then Sends(txb.bytes, txl as int) else [];
    var received := if RxUsable(rxb, rxl) then [Start] + Recvs(rxl as int) else [];
    assert r.trace == opening + sent + received + [Stop];
    forall i | 0 <= i < txl as int
      ensures r.trace[2 + i] == Send(txb.bytes[i])
    {
      assert r.trace[2 + i] == sent[i];
    }
    if RxUsable(rxb, rxl) {
      forall i | 3 + txl as int <= i < 3 + txl as int + rxl as int
        ensures r.trace[i] == Recv
      {
        assert r.trace[i] == received[i - 2 - txl as int];
      }
    }
  }

  /** On a successful call each kind of event sits exactly where the
      sequencer puts it: Start at the head and, only when the receive side is
      usable, right after the sends; the one address event second (there is
      no re-address before the reads); sends only in the send phase;
      receives only in the receive phase; Stop only last. */
  lemma EventPositions(ic: U8, addr: U16, txb: Buffer, txl: U8, rxb: Buffer, rxl: U8, incoming: seq<U8>)
    requires ValidCall(txb, txl, rxb, rxl, incoming)
    requires TxUsable(txb, txl) || RxUsable(rxb, rxl)
    requires txb.Buf? || txl == 0
    ensures var t := Transact(ic, addr, txb, txl, rxb, rxl, incoming).trace;
      forall i :: 0 <= i < |t| ==>
        && (t[i] == Start <==> i == 0 || (RxUsable(rxb, rxl) && i == 2 + txl as int))
        && (t[i].Addr? <==> i == 1)
        && (t[i].Send? <==> 2 <= i < 2 + txl as int)
        && (t[i] == Recv <==> RxUsable(rxb, rxl) && 3 + txl as int <= i < |t| - 1)
        && (t[i] == Stop <==> i == |t| - 1)
  {
    SuccessTrace(ic, addr, txb, txl, rxb, rxl, incoming);
    var t := Transact(ic, addr, txb, txl, rxb, rxl, incoming).trace;
    forall i | 0 <= i < |t|
      ensures t[i] == Start <==> i == 0 || (RxUsable(rxb, rxl) && i == 2 + txl as int)
      ensures t[i].Addr? <==> i == 1
      ensures t[i].Send? <==> 2 <= i < 2 + txl as int
      ensures t[i] == Recv <==> RxUsable(rxb, rxl) && 3 + txl as int <= i < |t| - 1
      ensures t[i] == Stop <==> i == |t| - 1
    {
      if 2 <= i < 2 + txl as int {
        assert t[2 + (i - 2)] == Send(txb.bytes[i - 2]);
      } else if RxUsable(rxb, rxl) && 3 + txl as int <= i < |t| - 1 {
      }
    }
  }

  /** The number of Start conditions a successful call issues: one, plus one
      more when the receive side is usable, so a receive-only call issues
      two. */
  lemma StartCount(ic: U8, addr: U16, txb: Buffer, txl: U8, rxb: Buffer, rxl: U8, incoming: seq<U8>)
    requires ValidCall(txb, txl, rxb, rxl, incoming)
    requires TxUsable(txb, txl) || RxUsable(rxb, rxl)
    requires txb.Buf? || txl == 0
    ensures multiset(Transact(ic, addr, txb, txl, rxb, rxl, incoming).trace)[Start]
         == if RxUsable(rxb, rxl) then 2 else 1
  {
    EventPositions(ic, addr, txb, txl, rxb, rxl, incoming);
    SuccessTrace(ic, addr, txb, txl, rxb, rxl, incoming);
    CountStarts(Transact(ic, addr, txb, txl, rxb, rxl, incoming).trace, 2 + txl as int, RxUsable(rxb, rxl));
  }

  /** A trace whose Start events sit at position 0 and, when `twice`, at
      position `k`, holds one or two of them. */
  lemma CountStarts(t: seq<Event>, k: int, twice: bool)
    requires 0 < k < |t|
    requires forall i :: 0 <= i < |t| ==> (t[i] == Start <==> i == 0 || (twice && i == k))
    ensures multiset(t)[Start] == if twice then 2 else 1
  {
    assert t == [t[0]] + t[1..];
    if twice {
      assert t[1..] == t[1..k] + [t[k]] + t[k + 1..];
      Absent(t, 1, k, Start);
      Absent(t, k + 1, |t|, Start);
    } else {
      Absent(t, 1, |t|, Start);
    }
  }

  /** An event that occurs at no position of `t[lo..hi]` is counted zero
      times in it. */
  lemma Absent(t: seq<Event>, lo: nat, hi: nat, e: Event)
    requires lo <= hi <= |t|
    requires forall i :: lo <= i < hi ==> t[i] != e
    ensures multiset(t[lo..hi])[e] == 0
  {
  }

  /** The receive-only call: Start, the receiver address, a second bare Start,
      `rxl` receives and Stop. */
  lemma ReceiveOnlyTrace(ic: U8, addr: U16, txb: Buffer, rxb: Buffer, rxl: U8, incoming: seq<U8>)
    requires ValidCall(txb, 0, rxb, rxl, incoming)
    requires RxUsable(rxb, rxl)
    ensures var t := Transact(ic, addr, txb, 0, rxb, rxl, incoming).trace;
      && |t| == rxl as int + 4
      && t[..3] == [Start, Addr(ic, Receiver), Start]
      && (forall i :: 3 <= i < |t| - 1 ==> t[i] == Recv)
      && t[|t| - 1] == Stop
  {
    SuccessTrace(ic, addr, txb, 0, rxb, rxl, incoming);
    var t := Transact(ic, addr, txb, 0, rxb, rxl, incoming).trace;
  }

  /** The receive array after a successful call: when the receive side is
      usable, position i < rxl holds the i-th byte the bus returned and every
      later position is unchanged; otherwise the receive argument is left as
      it was. (The transmit array is only ever read: an outcome carries no
      transmit buffer.) */
  lemma ReceiveBuffer(ic: U8, addr: U16, txb: Buffer, txl: U8, rxb: Buffer, rxl: U8, incoming: seq<U8>)
    requires ValidCall(txb, txl, rxb, rxl, incoming)
    requires txb.Buf? || txl == 0
    ensures var r := Transact(ic, addr, txb, txl, rxb, rxl, incoming);
      && r.Returned?
      && (RxUsable(rxb, rxl) ==>
            && r.rx.Buf?
            && |r.rx.bytes| == |rxb.bytes|
            && (forall i :: 0 <= i < |rxb.bytes| ==>
                  r.rx.bytes[i] == if i < rxl as int then incoming[i] else rxb.bytes[i]))
      && (!RxUsable(rxb, rxl) ==> r.rx == rxb)
  {
  }

  /** The one path on which the routine reads through a null pointer: a null
      transmit pointer with a non-zero length, while the receive side is
      usable. It has then issued Start and the receiver address. With the
      receive side unusable, the same arguments are rejected instead. */
  lemma NullTransmitPointer(ic: U8, addr: U16, txl: U8, rxb: Buffer, rxl: U8, incoming: seq<U8>)
    requires ValidCall(Null, txl, rxb, rxl, incoming)
    requires txl != 0
    ensures RxUsable(rxb, rxl) ==>
      Transact(ic, addr, Null, txl, rxb, rxl, incoming) == NullTxRead([Start, Addr(ic, Receiver)])
    ensures !RxUsable(rxb, rxl) ==>
      Transact(ic, addr, Null, txl, rxb, rxl, incoming) == Returned(ErrorOut, [], rxb)
  {
  }

  /** The `addr` parameter never affects anything the routine does. */
  lemma AddrIgnored(ic: U8, a: U16, b: U16, txb: Buffer, txl: U8, rxb: Buffer, rxl: U8, incoming: seq<U8>)
    requires ValidCall(txb, txl, rxb, rxl, incoming)
    ensures Transact(ic, a, txb, txl, rxb, rxl, incoming) == Transact(ic, b, txb, txl, rxb, rxl, incoming)
  {
  }

  /** Writing two bytes to device 0x50 and reading two back: the bytes go out
      in order, and the read is preceded by a bare Start, not by a receiver
      address. */
  lemma WriteThenRead(c0: U8, c1: U8)
    ensures Transact(0x50, 0, Buf([0xAA, 0xBB]), 2, Buf([0, 0]), 2, [c0, c1])
         == Returned(Success,
                     [Start, Addr(0x50, Transmitter), Send(0xAA), Send(0xBB), Start, Recv, Recv, Stop],
                     Buf([c0, c1]))
  {
    assert Sends([0xAA, 0xBB], 2) == [Send(0xAA), Send(0xBB)];
    assert Recvs(2) == [Recv, Recv];
    assert Fill([0, 0], [c0, c1], 2) == [c0, c1];
  }
}
