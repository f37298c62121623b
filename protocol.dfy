/** Constants and value types of the PMS5003T driver's header: the byte and
    16-bit word types, the status codes, the command opcodes and the command
    argument codes. */
module Protocol {

  /** A byte on the wire. The driver keeps bytes in `char` buffers; they are
      modelled here as unsigned 0..255, as the sensor's datasheet intends. If
      `char` were signed on the target, a byte >= 0x80 would sign-extend both in
      `packet[i] << 8 | packet[i+1]` and in the checksum sum, and neither would
      then be the value modelled here. */
  newtype byte = x: int | 0 <= x < 0x100

  /** A `uint16_t`: every measurement field, every getter result and every
      checksum lies in 0..65535. */
  newtype u16 = x: int | 0 <= x < 0x1_0000

  datatype Option<T> = None | Some(value: T)

  /** `PMS5003T_STATUS`. `Ok` is the only success value. */
  datatype Status = Ok | GenericError | StartBitError | CheckBitError

  /** The numeric value of each status (the enum's implicit 0, 1, 2, 3). */
  function Code(s: Status): (r: nat)
    ensures r < 4
    ensures r == 0 <==> s == Ok
  {
    match s
    case Ok => 0
    case GenericError => 1
    case StartBitError => 2
    case CheckBitError => 3
  }

  /** The status with a given numeric value, if there is one. */
  function StatusOf(k: nat): (r: Option<Status>)
    ensures r.None? <==> k >= 4
  {
    if k == 0 then Some(Ok)
    else if k == 1 then Some(GenericError)
    else if k == 2 then Some(StartBitError)
    else if k == 3 then Some(CheckBitError)
    else None
  }

  /** The four statuses have four distinct codes: the code determines the status. */
  lemma StatusCodeRoundTrip(s: Status, k: nat)
    ensures StatusOf(Code(s)) == Some(s)
    ensures StatusOf(k) == Some(s) <==> Code(s) == k
  {
  }

  /** `PMS5003T_CMD`: the commands the driver can send. */
  datatype Command = ReadRequestPassive | ChangeMode | SleepSet

  /** The opcode byte of each command. */
  function Opcode(c: Command): (b: byte)
    ensures b == 0xE1 || b == 0xE2 || b == 0xE4
  {
    match c
    case ReadRequestPassive => 0xE2
    case ChangeMode => 0xE1
    case SleepSet => 0xE4
  }

  /** The command an opcode byte stands for, if any. */
  function CommandOf(b: byte): (r: Option<Command>)
    ensures r.Some? <==> b == 0xE1 || b == 0xE2 || b == 0xE4
  {
    if b == 0xE2 then Some(ReadRequestPassive)
    else if b == 0xE1 then Some(ChangeMode)
    else if b == 0xE4 then Some(SleepSet)
    else None
  }

  /** The opcodes are pairwise distinct: the opcode byte identifies the command. */
  lemma OpcodeRoundTrip(c: Command, b: byte)
    ensures CommandOf(Opcode(c)) == Some(c)
    ensures CommandOf(b) == Some(c) <==> Opcode(c) == b
  {
  }

  /** `CMD_ARG`: the second argument byte of a mode or sleep command. */
  const ARG_SLEEP: byte := 0x00
  const ARG_WAKEUP: byte := 0x01
  const ARG_PASSIVE: byte := 0x00
  const ARG_ACTIVE: byte := 0x01

  /** The argument byte selected by `enable ? 0x00 : 0x01` in the mode and
      sleep commands: passive (resp. sleep) when enabled, active (resp. wake-up)
      otherwise. */
  function SwitchArg(enable: bool): (r: byte)
    ensures r == (if enable then ARG_PASSIVE else ARG_ACTIVE)
    ensures r == (if enable then ARG_SLEEP else ARG_WAKEUP)
    ensures r == 0 || r == 1
  {
    if enable then 0x00 else 0x01
  }
}
