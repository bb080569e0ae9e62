/** Result shapes shared by the kernel model. */
module Outcomes {

  datatype Option<+T> = None | Some(value: T)

  /** What a kernel routine does: return a value, or halt the kernel through
      panic(msg). A panic is an invariant violation, not an error return. */
  datatype Res<+T> = Ret(value: T) | Panic(msg: string)
}
