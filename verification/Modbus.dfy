/** The protocol data unit, the function and exception codes, and the error mappings. */
module Modbus {
  import opened Bytes

  datatype Pdu = Pdu(unitId: Byte, functionCode: Byte, payload: seq<Byte>)

  const FC_READ_COILS: Byte := 0x01
  const FC_READ_DISCRETE_INPUTS: Byte := 0x02
  const FC_READ_HOLDING_REGISTERS: Byte := 0x03
  const FC_READ_INPUT_REGISTERS: Byte := 0x04
  const FC_WRITE_SINGLE_COIL: Byte := 0x05
  const FC_WRITE_SINGLE_REGISTER: Byte := 0x06
  const FC_WRITE_MULTIPLE_COILS: Byte := 0x0f
  const FC_WRITE_MULTIPLE_REGISTERS: Byte := 0x10
  const FC_MASK_WRITE_REGISTER: Byte := 0x16

  /** The errors the stack names, those of the socket, and any other error value of a handler. */
  datatype Error =
    | RequestTimedOut
    | IllegalFunction
    | IllegalDataAddress
    | IllegalDataValue
    | ServerDeviceFailure
    | Acknowledge
    | ServerDeviceBusy
    | MemoryParityError
    | GatewayPathUnavailable
    | GatewayTargetFailedToRespond
    | BadCrc
    | ShortFrame
    | ProtocolError
    | BadUnitId
    | UnknownProtocolId
    | UnexpectedParameters
    | Timeout
    | EndOfStream
    | UnexpectedEndOfStream
    | UnknownExceptionCode(code: Byte)
    | OtherError(text: string)

  datatype Result<+T> = Ok(value: T) | Err(error: Error)

  function ExceptionCodeToError(code: Byte): Error {
    match code
    case 0x01 => IllegalFunction
    case 0x02 => IllegalDataAddress
    case 0x03 => IllegalDataValue
    case 0x04 => ServerDeviceFailure
    case 0x05 => Acknowledge
    case 0x06 => ServerDeviceBusy
    case 0x08 => MemoryParityError
    case 0x0a => GatewayPathUnavailable
    case 0x0b => GatewayTargetFailedToRespond
    case _ => UnknownExceptionCode(code)
  }

  function ErrorToExceptionCode(error: Error): Byte {
    match error
    case IllegalFunction => 0x01
    case IllegalDataAddress => 0x02
    case IllegalDataValue => 0x03
    case ServerDeviceFailure => 0x04
    case Acknowledge => 0x05
    case ServerDeviceBusy => 0x06
    case MemoryParityError => 0x08
    case GatewayPathUnavailable => 0x0a
    case GatewayTargetFailedToRespond => 0x0b
    case _ => 0x04
  }

  /** The errors that have an exception code of their own. */
  predicate HasExceptionCode(error: Error) {
    error in {IllegalFunction, IllegalDataAddress, IllegalDataValue, ServerDeviceFailure, Acknowledge,
              ServerDeviceBusy, MemoryParityError, GatewayPathUnavailable, GatewayTargetFailedToRespond}
  }

  /** The error a client sees when a server reports one: itself when it has a code, and a
      server device failure otherwise. */
  function Reported(error: Error): Error {
    if HasExceptionCode(error) then error else ServerDeviceFailure
  }

  lemma MappingsAgree(error: Error)
    ensures ExceptionCodeToError(ErrorToExceptionCode(error)) == Reported(error)
  {
  }
}
