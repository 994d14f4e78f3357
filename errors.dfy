/** Status codes of the library (the anonymous enum of sabir.h) and sb_strerror. */
module Errors {

  /** The status codes, declared in the order of their numeric values. */
  datatype Status = Ok | EOpen | EMagic | EModel | EIo | ENoMem
  {
    /** The numeric value of the enumerator (SB_OK is 0, SB_ENOMEM is 5). */
    function Code(): int
    {
      match this
      case Ok => 0
      case EOpen => 1
      case EMagic => 2
      case EModel => 3
      case EIo => 4
      case ENoMem => 5
    }

    /** The description the library gives for this status. */
    function Message(): string
    {
      match this
      case Ok => "no error"
      case EOpen => "cannot open model"
      case EMagic => "not a model file"
      case EModel => "invalid model file"
      case EIo => "I/O error"
      case ENoMem => "out of memory"
    }
  }

  const Unknown: string := "unknown error"

  /** The static table sb_strerror indexes, one entry per code. */
  const Messages: seq<string> :=
    [Ok.Message(), EOpen.Message(), EMagic.Message(), EModel.Message(), EIo.Message(), ENoMem.Message()]

  /** sb_strerror: the table entry for a code inside the table, "unknown error" otherwise. */
  function Strerror(err: int): (s: string)
    ensures s == Unknown <==> (err < 0 || err >= 6)
    ensures forall st: Status :: st.Code() == err ==> s == st.Message()
  {
    if 0 <= err < |Messages| then Messages[err] else Unknown
  }
}
