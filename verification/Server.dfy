/** The server's request loop, reading from and writing to a transport. */
module Server {
  import opened Bytes
  import opened Modbus
  import opened Encoding
  import BoolPacking
  import opened Protocol
  import opened Net
  import opened Mbap
  import opened Serving

  class ModbusServer<S> {
    const handler: Handler<S>
    var state: S

    constructor (handler: Handler<S>, state: S)
      ensures this.handler == handler && this.state == state
    {
      this.handler, this.state := handler, state;
    }

    /** Coils and discrete inputs. */
    method ServeReadBools(req: Pdu) returns (r: Result<Pdu>)
      requires req.functionCode == FC_READ_COILS || req.functionCode == FC_READ_DISCRETE_INPUTS
      modifies this`state
      ensures (state, r) == Process(handler, old(state), req)
    {
      hide Uint16ToBytes, BytesToUint16;
      if |req.payload| != 4 {
        return Err(ProtocolError);
      }
      var addr := BytesToUint16(BigEndian, req.payload[0..2]);
      var quantity := BytesToUint16(BigEndian, req.payload[2..4]);
      if quantity > 2000 || quantity == 0 {
        return Err(ProtocolError);
      }
      if (addr as int) + (quantity as int) - 1 > 0xffff {
        return Err(IllegalDataAddress);
      }
      var reply: Reply<bool>;
      if req.functionCode == FC_READ_COILS {
        var (state', coils) := handler.coils(state, CoilsCall(req.unitId, addr, quantity, false, []));
        state, reply := state', coils;
      } else {
        var (state', inputs) := handler.discreteInputs(state, InputsCall(req.unitId, addr, quantity));
        state, reply := state', inputs;
      }
      var coils, err := reply.res, reply.err;
      var resCount := |coils|;
      if err == None && resCount != quantity {
        return Err(ServerDeviceFailure);
      }
      if err.Some? {
        return Err(err.value);
      }
      var count := resCount / 8;
      if resCount % 8 != 0 {
        count := count + 1;
      }
      var payload: seq<Byte> := [count];
      var encoded := BoolPacking.EncodeBools(coils);
      payload := payload + encoded[..];
      r := Ok(Pdu(req.unitId, req.functionCode, payload));
    }

    method ServeWriteSingleCoil(req: Pdu) returns (r: Result<Pdu>)
      requires req.functionCode == FC_WRITE_SINGLE_COIL
      modifies this`state
      ensures (state, r) == Process(handler, old(state), req)
    {
      hide Uint16ToBytes, BytesToUint16;
      if |req.payload| != 4 {
        return Err(ProtocolError);
      }
      var addr := BytesToUint16(BigEndian, req.payload[0..2]);
      if (req.payload[2] != 0xff && req.payload[2] != 0x00) || req.payload[3] != 0x00 {
        return Err(ProtocolError);
      }
      var (state', reply) := handler.coils(state, CoilsCall(req.unitId, addr, 1, true, [req.payload[2] == 0xff]));
      state := state';
      if reply.err.Some? {
        return Err(reply.err.value);
      }
      var payload := Uint16ToBytes(BigEndian, addr);
      payload := payload + [req.payload[2], req.payload[3]];
      r := Ok(Pdu(req.unitId, req.functionCode, payload));
    }

    method ServeWriteMultipleCoils(req: Pdu) returns (r: Result<Pdu>)
      requires req.functionCode == FC_WRITE_MULTIPLE_COILS
      modifies this`state
      ensures (state, r) == Process(handler, old(state), req)
    {
      hide Uint16ToBytes, BytesToUint16, BoolPacking.UnpackBools;
      if |req.payload| < 6 {
        return Err(ProtocolError);
      }
      var addr := BytesToUint16(BigEndian, req.payload[0..2]);
      var quantity := BytesToUint16(BigEndian, req.payload[2..4]);
      if quantity > 0x7b0 || quantity == 0 {
        return Err(ProtocolError);
      }
      if (addr as int) + (quantity as int) - 1 > 0xffff {
        return Err(IllegalDataAddress);
      }
      var expectedLen := quantity / 8;
      if quantity % 8 != 0 {
        expectedLen := expectedLen + 1;
      }
      if req.payload[4] != expectedLen % 0x100 {
        return Err(ProtocolError);
      }
      if |req.payload| - 5 != expectedLen {
        return Err(ProtocolError);
      }
      var args := BoolPacking.DecodeBools(quantity, req.payload[5..]);
      var (state', reply) := handler.coils(state, CoilsCall(req.unitId, addr, quantity, true, args));
      state := state';
      if reply.err.Some? {
        return Err(reply.err.value);
      }
      var payload := Uint16ToBytes(BigEndian, addr);
      payload := payload + Uint16ToBytes(BigEndian, quantity);
      r := Ok(Pdu(req.unitId, req.functionCode, payload));
    }

    /** Holding and input registers. */
    method ServeReadRegisters(req: Pdu) returns (r: Result<Pdu>)
      requires req.functionCode == FC_READ_HOLDING_REGISTERS || req.functionCode == FC_READ_INPUT_REGISTERS
      modifies this`state
      ensures (state, r) == Process(handler, old(state), req)
    {
      hide Uint16ToBytes, BytesToUint16;
      if |req.payload| != 4 {
        return Err(ProtocolError);
      }
      var addr := BytesToUint16(BigEndian, req.payload[0..2]);
      var quantity := BytesToUint16(BigEndian, req.payload[2..4]);
      if quantity > 0x007d || quantity == 0 {
        return Err(ProtocolError);
      }
      if (addr as int) + (quantity as int) - 1 > 0xffff {
        return Err(IllegalDataAddress);
      }
      var reply: Reply<Word>;
      if req.functionCode == FC_READ_HOLDING_REGISTERS {
        var (state', regs) := handler.holdingRegisters(state, HoldingCall(req.unitId, addr, quantity, false, []));
        state, reply := state', regs;
      } else {
        var (state', regs) := handler.inputRegisters(state, InputsCall(req.unitId, addr, quantity));
        state, reply := state', regs;
      }
      var regs, err := reply.res, reply.err;
      var resCount := |regs|;
      if err == None && resCount != quantity {
        return Err(ServerDeviceFailure);
      }
      if err.Some? {
        return Err(err.value);
      }
      var payload: seq<Byte> := [resCount * 2 % 0x100];
      var encoded := Uint16sToBytes(BigEndian, regs);
      payload := payload + encoded;
      r := Ok(Pdu(req.unitId, req.functionCode, payload));
    }

    method ServeWriteSingleRegister(req: Pdu) returns (r: Result<Pdu>)
      requires req.functionCode == FC_WRITE_SINGLE_REGISTER
      modifies this`state
      ensures (state, r) == Process(handler, old(state), req)
    {
      hide Uint16ToBytes, BytesToUint16;
      if |req.payload| != 4 {
        return Err(ProtocolError);
      }
      var addr := BytesToUint16(BigEndian, req.payload[0..2]);
      var value := BytesToUint16(BigEndian, req.payload[2..4]);
      var (state', reply) := handler.holdingRegisters(state, HoldingCall(req.unitId, addr, 1, true, [value]));
      state := state';
      if reply.err.Some? {
        return Err(reply.err.value);
      }
      var payload := Uint16ToBytes(BigEndian, addr);
      payload := payload + Uint16ToBytes(BigEndian, value);
      r := Ok(Pdu(req.unitId, req.functionCode, payload));
    }

    method ServeWriteMultipleRegisters(req: Pdu) returns (r: Result<Pdu>)
      requires req.functionCode == FC_WRITE_MULTIPLE_REGISTERS
      modifies this`state
      ensures (state, r) == Process(handler, old(state), req)
    {
      hide Uint16ToBytes, BytesToUint16, BytesToWords;
      if |req.payload| < 6 {
        return Err(ProtocolError);
      }
      var addr := BytesToUint16(BigEndian, req.payload[0..2]);
      var quantity := BytesToUint16(BigEndian, req.payload[2..4]);
      if quantity > 0x007b || quantity == 0 {
        return Err(ProtocolError);
      }
      if (addr as int) + (quantity as int) - 1 > 0xffff {
        return Err(IllegalDataAddress);
      }
      var expectedLen: nat := quantity * 2;
      if req.payload[4] != expectedLen % 0x100 {
        return Err(ProtocolError);
      }
      if |req.payload| - 5 != expectedLen {
        return Err(ProtocolError);
      }
      var args := BytesToUint16s(BigEndian, req.payload[5..]);
      var (state', reply) := handler.holdingRegisters(state, HoldingCall(req.unitId, addr, quantity, true, args));
      state := state';
      if reply.err.Some? {
        return Err(reply.err.value);
      }
      var payload := Uint16ToBytes(BigEndian, addr);
      payload := payload + Uint16ToBytes(BigEndian, quantity);
      r := Ok(Pdu(req.unitId, req.functionCode, payload));
    }

    /** One turn of the loop: the switch on the function code, then the handling of errors. */
    method ServeRequest(req: Pdu) returns (outcome: Outcome)
      modifies this`state
      ensures (state, outcome) == Answer(handler, old(state), req)
    {
      hide Decode, Invoke;
      var r: Result<Pdu>;
      if req.functionCode == FC_READ_COILS || req.functionCode == FC_READ_DISCRETE_INPUTS {
        r := ServeReadBools(req);
      } else if req.functionCode == FC_WRITE_SINGLE_COIL {
        r := ServeWriteSingleCoil(req);
      } else if req.functionCode == FC_WRITE_MULTIPLE_COILS {
        r := ServeWriteMultipleCoils(req);
      } else if req.functionCode == FC_READ_HOLDING_REGISTERS || req.functionCode == FC_READ_INPUT_REGISTERS {
        r := ServeReadRegisters(req);
      } else if req.functionCode == FC_WRITE_SINGLE_REGISTER {
        r := ServeWriteSingleRegister(req);
      } else if req.functionCode == FC_WRITE_MULTIPLE_REGISTERS {
        r := ServeWriteMultipleRegisters(req);
      } else {
        RefusedIff(req);
        r := Ok(Pdu(req.unitId, WithErrorBit(req.functionCode), [0x01]));
      }
      if r.Err? {
        if r.error == ProtocolError {
          return CloseLink;
        }
        r := Ok(Pdu(req.unitId, WithErrorBit(req.functionCode), [ErrorToExceptionCode(r.error)]));
      }
      outcome := Respond(r.value);
    }

    /** One turn of the loop: a request is read and answered, or there is no next turn. */
    method ServeNext(t: TcpTransport) returns (again: bool)
      requires t.Valid() && this !in t.conn.Repr()
      modifies this`state, t`lastTxnId, t.conn.Repr()
      ensures again ==> t.Valid() && t.conn.Sock().closed == old(t.conn.Sock().closed)
      ensures match ParseFrame(old(t.conn.Stream()))
              case Frame(txnId, req, rest) =>
                var (s', outcome) := Answer(handler, old(state), req);
                && state == s' && again == outcome.Respond?
                && (again ==>
                      var frame := FrameOf(txnId, outcome.res);
                      && t.conn.Sock().sent == old(t.conn.Sock().sent) + frame
                      && t.conn.Stream() == rest + t.conn.Answer(old(t.conn.Sock().sent), frame))
                && (!again ==> t.conn.Sock().closed && t.conn.Sock().sent == old(t.conn.Sock().sent))
              case _ =>
                && !again && state == old(state) && t.conn.Sock().sent == old(t.conn.Sock().sent)
                && t.conn.Sock().closed == old(t.conn.Sock().closed)
    {
      hide Answer, ParseFrame, FrameOf, Conn.Stream, Conn.Valid, Conn.Answer;
      var req := t.ReadRequest();
      if req.Err? {
        return false;
      }
      var outcome := ServeRequest(req.value);
      if outcome.CloseLink? {
        t.conn.Sock().Close();
        return false;
      }
      t.WriteResponse(outcome.res);
      again := true;
    }

    /** Serves requests until reading fails or one of them closes the link. The client may react to
        each response as it likes; `limit` only says that it stops talking sometime. */
    method HandleTransport(t: TcpTransport, ghost limit: nat)
      requires t.Valid() && this !in t.conn.Repr()
      requires SilentAfter(t.conn.Answer, limit)
      modifies this`state, t`lastTxnId, t.conn.Repr()
      ensures var served :=
                Converse(handler, old(state), old(t.conn.Stream()), t.conn.Answer, old(t.conn.Sock().sent), limit);
              && t.conn.Sock().sent == old(t.conn.Sock().sent) + served.out
              && state == served.state
              && t.conn.Sock().closed == (old(t.conn.Sock().closed) || served.status == LinkClosed)
    {
      hide Answer, ParseFrame, FrameOf, SilentAfter, Converse, Conn.Stream, Conn.Valid, Conn.Answer;
      ghost var answer := t.conn.Answer;
      ghost var all := Converse(handler, state, t.conn.Stream(), answer, t.conn.Sock().sent, limit);
      ghost var written := [];
      PrependTwice([], [], all);
      while true
        invariant t.Valid()
        invariant all == Prepend(written, Converse(handler, state, t.conn.Stream(), answer, t.conn.Sock().sent, limit))
        invariant t.conn.Sock().sent == old(t.conn.Sock().sent) + written
        invariant t.conn.Sock().closed == old(t.conn.Sock().closed)
        decreases Patience(limit, t.conn.Sock().sent), |t.conn.Stream()|
      {
        ghost var before, s, sent := t.conn.Stream(), state, t.conn.Sock().sent;
        ConverseEnds(handler, s, before, answer, sent, limit);
        var again := ServeNext(t);
        if !again {
          return;
        }
        ghost var frame := t.conn.Sock().sent[|sent|..];
        SilentFrom(answer, limit, sent, frame);
        ConverseTurn(handler, s, before, answer, sent, limit);
        hide Prepend;
        ghost var later := Converse(handler, state, t.conn.Stream(), answer, t.conn.Sock().sent, limit);
        PrependTwice(written, frame, later);
        written := written + frame;
      }
    }
  }
}
