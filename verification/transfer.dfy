/** The I2C transfer sequencer `i2c_transact`: a pure function from the
    call's arguments and the bytes the bus hands back to the return code, the
    ordered trace of bus primitives issued and the final receive buffer. */
module Transfer {
  import opened CTypes
  import opened Bus

  /** The two values the routine returns. */
  const Success: int := 0
  const ErrorOut: int := -1

  datatype Outcome =
      /** The routine returned `code`, having issued `trace`; `rx` is the
          receive argument afterwards (its array possibly overwritten). */
    | Returned(code: int, trace: seq<Event>, rx: Buffer)
      /** The send loop dereferenced a null transmit pointer after `trace`
          had been issued; C gives this no defined behaviour. */
    | NullTxRead(trace: seq<Event>)

  /** A side is usable when its pointer is non-null and its length non-zero. */
  predicate TxUsable(txb: Buffer, txl: U8) { txb.Buf? && txl != 0 }
  predicate RxUsable(rxb: Buffer, rxl: U8) { rxb.Buf? && rxl != 0 }

  /** What the caller must guarantee and the routine cannot check: every
      non-null pointer addresses at least as many bytes as its length, and
      the bus hands back one byte for each receive issued. */
  predicate ValidCall(txb: Buffer, txl: U8, rxb: Buffer, rxl: U8, incoming: seq<U8>) {
    && (txb.Buf? ==> txl as int <= |txb.bytes|)
    && (rxb.Buf? ==> rxl as int <= |rxb.bytes|)
    && (RxUsable(rxb, rxl) ==> rxl as int <= |incoming|)
  }

  /** The events of the send loop after `n` iterations. */
  function Sends(buf: seq<U8>, n: nat): (t: seq<Event>)
    requires n <= |buf|
    ensures |t| == n
    ensures forall i :: 0 <= i < n ==> t[i] == Send(buf[i])
  {
    if n == 0 then [] else Sends(buf, n - 1) + [Send(buf[n - 1])]
  }

  /** The events of the receive loop after `n` iterations. */
  function Recvs(n: nat): (t: seq<Event>)
    ensures |t| == n
    ensures forall i :: 0 <= i < n ==> t[i] == Recv
  {
    if n == 0 then [] else Recvs(n - 1) + [Recv]
  }

  /** The receive array after `n` iterations of the receive loop, the i-th
      iteration storing the i-th byte the bus returned. */
  function Fill(buf: seq<U8>, incoming: seq<U8>, n: nat): (r: seq<U8>)
    requires n <= |buf| && n <= |incoming|
    ensures |r| == |buf|
    ensures forall i :: 0 <= i < n ==> r[i] == incoming[i]
    ensures forall i :: n <= i < |buf| ==> r[i] == buf[i]
  {
    if n == 0 then buf else Fill(buf, incoming, n - 1)[n - 1 := incoming[n - 1]]
  }

  /** `i2c_transact(ic, addr, txb, txl, rxb, rxl)` where the bus returns the
      bytes `incoming`, in order, from successive receives. `addr` is a
      parameter of the routine that its body never reads. */
  function Transact(ic: U8, addr: U16, txb: Buffer, txl: U8, rxb: Buffer, rxl: U8,
                    incoming: seq<U8>): (r: Outcome)
    requires ValidCall(txb, txl, rxb, rxl, incoming)
    ensures r == Returned(ErrorOut, [], rxb) <==> !TxUsable(txb, txl) && !RxUsable(rxb, rxl)
    ensures r.NullTxRead? <==> txb.Null? && txl != 0 && RxUsable(rxb, rxl)
    ensures r.Returned? ==> r.code == Success || r.code == ErrorOut
    ensures r.Returned? && r.code == Success ==> r.trace != [] && r.trace[|r.trace| - 1] == Stop
  {
    if !TxUsable(txb, txl) && !RxUsable(rxb, rxl) then
      Returned(ErrorOut, [], rxb)
    else
      var opening := [Start, Addr(ic, if TxUsable(txb, txl) then Transmitter else Receiver)];
      if txb.Null? && txl != 0 then
        NullTxRead(opening)
      else
        var sent := if txb.Buf? then Sends(txb.bytes, txl as int) else [];
        var received := if RxUsable(rxb, rxl) then [Start] + Recvs(rxl as int) else [];
        var rx := if RxUsable(rxb, rxl) then Buf(Fill(rxb.bytes, incoming, rxl as int)) else rxb;
        Returned(Success, opening + sent + received + [Stop], rx)
  }
}
