/** The argument-descriptor record (argdes_t) that every libproc remote
    system-call wrapper hands to Psyscall, one record per argument. */
module Descriptors {

  datatype Option<+T> = None | Some(value: T)
  {
    function GetOr(default: T): T
    {
      match this
      case Some(v) => v
      case None => default
    }
  }

  /** arg_type: AT_BYVAL passes arg_value itself, AT_BYREF the buffer arg_object. */
  datatype Mode = ByVal | ByRef

  /** arg_inout: AI_INPUT buffers are copied into the subject before the call,
      AI_OUTPUT buffers are copied back out of it afterwards. */
  datatype InOut = Input | Output

  /** The buffers a descriptor built by pr_sigaction can point at: the caller's
      act and oact structures, and the two 32-bit shadow structures act32 and
      oact32 on the wrapper's own stack. A null arg_object is None. */
  datatype Buffer = CallerAct | CallerOact | ShadowAct32 | ShadowOact32

  /** sizeof of a complete C structure: never zero. */
  type ByteSize = n: nat | n > 0 witness 1

  /** One argdes_t: arg_value, arg_object, arg_type, arg_inout, arg_size. */
  datatype ArgDes = ArgDes(value: int, obj: Option<Buffer>, mode: Mode, inout: InOut, size: nat)

  /** The descriptor discipline: a by-reference argument names a real buffer of
      nonzero length, a by-value one names none and has length 0. */
  predicate WellFormed(d: ArgDes)
  {
    match d.mode
    case ByRef => d.obj.Some? && d.size > 0
    case ByVal => d.obj.None? && d.size == 0
  }
}
