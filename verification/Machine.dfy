/** Vocabulary shared by every part of the kernel model. */
module Machine {

  /** A kernel call either returns or ends in `panic`, which never returns. */
  datatype Outcome<+T> = Done(value: T) | Panic

  datatype Option<+T> = None | Some(value: T)

  const U32 := 0x1_0000_0000
  const PAGE_SIZE := 4096
}
