/** `i2c_transact` written the way the C routine runs: a branch for the
    opening, a loop that counts the transmit length down while advancing
    the transmit pointer, and a loop that counts the receive length down
    while storing each byte the bus returns. Proved to agree with the
    functional model in every case. */
module TransferSteps {
  import opened CTypes
  import opened Bus
  import opened Transfer

  /** The send loop: while the transmit length is non-zero, send the byte
      under the transmit pointer, advance it and count the length down. It
      faults on its first iteration when the pointer is null. */
  method SendLoop(txb: Buffer, txl: U8, before: seq<Event>) returns (trace: seq<Event>, faulted: bool)
    requires txb.Buf? ==> txl as int <= |txb.bytes|
    ensures faulted <==> txb.Null? && txl != 0
    ensures faulted ==> trace == before
    ensures !faulted && txb.Buf? ==> trace == before + Sends(txb.bytes, txl as int)
    ensures !faulted && txb.Null? ==> trace == before
  {
    trace := before;
    var txLeft := txl;   // the C `txl`, counted down
    var txPos := 0;      // how far the C `txb` has advanced
    while txLeft != 0
      invariant txPos + txLeft as int == txl as int
      invariant txb.Buf? ==> trace == before + Sends(txb.bytes, txPos)
      invariant txb.Null? ==> txPos == 0 && trace == before
    {
      if txb.Null? {
        return trace, true;
      }
      trace := trace + [Send(txb.bytes[txPos])];
      txPos := txPos + 1;
      txLeft := txLeft - 1;
    }
    return trace, false;
  }

  /** The receive loop: while the receive length is non-zero, store the next
      byte the bus returns under the receive pointer, advance it and count
      the length down. */
  method ReceiveLoop(buf: seq<U8>, rxl: U8, incoming: seq<U8>, before: seq<Event>)
    returns (trace: seq<Event>, filled: seq<U8>)
    requires rxl as int <= |buf| && rxl as int <= |incoming|
    ensures trace == before + Recvs(rxl as int)
    ensures filled == Fill(buf, incoming, rxl as int)
  {
    trace := before;
    filled := buf;
    var rxLeft := rxl;   // the C `rxl`, counted down
    var rxPos := 0;      // how far the C `rxb` has advanced
    while rxLeft != 0
      invariant rxPos + rxLeft as int == rxl as int
      invariant trace == before + Recvs(rxPos)
      invariant filled == Fill(buf, incoming, rxPos)
    {
      filled := filled[rxPos := incoming[rxPos]];
      trace := trace + [Recv];
      rxPos := rxPos + 1;
      rxLeft := rxLeft - 1;
    }
  }

  method TransactSteps(ic: U8, addr: U16, txb: Buffer, txl: U8, rxb: Buffer, rxl: U8,
                       incoming: seq<U8>) returns (r: Outcome)
    requires ValidCall(txb, txl, rxb, rxl, incoming)
    ensures r == Transact(ic, addr, txb, txl, rxb, rxl, incoming)
  {
    var trace: seq<Event>;
    if TxUsable(txb, txl) {
      trace := [Start, Addr(ic, Transmitter)];
    } else if RxUsable(rxb, rxl) {
      trace := [Start, Addr(ic, Receiver)];
    } else {
      return Returned(ErrorOut, [], rxb);
    }
    ghost var opening := trace;

    var faulted;
    trace, faulted := SendLoop(txb, txl, trace);
    if faulted {
      return NullTxRead(trace);
    }
    ghost var sent := trace[|opening|..];
    assert trace == opening + sent;

    var rx := rxb;
    if RxUsable(rxb, rxl) {
      var filled;
      trace, filled := ReceiveLoop(rxb.bytes, rxl, incoming, trace + [Start]);
      rx := Buf(filled);
      assert trace == opening + sent + ([Start] + Recvs(rxl as int));
    }
    return Returned(Success, trace + [Stop], rx);
  }
}
