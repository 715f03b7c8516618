/**
 * Protocol constants of the engine: the ECHONET Lite service codes (ESV),
 * the object class codes the engine names, the property codes (EPC) it
 * interprets, and the kinds of error the engine raises.
 */
module Codes {
  // Service codes (src/esv.ts)
  const GET: int := 0x62
  const GET_RES: int := 0x72
  const INF: int := 0x73
  const INFC: int := 0x74
  const INFC_RES: int := 0x7A

  // Object class codes (src/device-class.ts)
  const CLASS_NODE_PROFILE: int := 0x0EF0
  const CLASS_CONTROLLER: int := 0x05FF
  const CLASS_SMART_METER: int := 0x0288

  // Property codes. src/epc.ts is not part of this model; the values used by
  // the engine are the ones its frames carry.
  const EPC_INSTANCE_LIST_NOTIFICATION: int := 0xD5
  const EPC_COEFFICIENT: int := 0xD3
  const EPC_EFFECTIVE_DIGITS: int := 0xD7
  const EPC_UNIT: int := 0xE1
  const EPC_INSTANTANEOUS_ELECTRIC_ENERGY: int := 0xE7
  const EPC_CUMULATIVE_NORMAL: int := 0xEA
  const EPC_CUMULATIVE_REVERSE: int := 0xEB

  /** The errors the engine throws or rejects with. */
  datatype Error =
    | IncompleteParameters   // a required frame field is absent or zero
    | NumberTooLarge         // num2hex: value above Number.MAX_SAFE_INTEGER
    | InvalidByteCount       // num2hex: width outside 1..8
    | InvalidIdentity        // instance code outside 1..0xFF
    | GetResTimeout          // no matching GET_RES before the timer fired
    | TransmissionFailed     // the transport reported a failed UDP transmission
    | NoSocket               // the node profile is open but has no socket
    | TransportError         // any other failure reported by the transport
}
