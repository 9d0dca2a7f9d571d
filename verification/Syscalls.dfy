/** The shape of the syscall table of `syren-common`. Which syscalls there are is left open. */
module Syscalls {
  import opened Common
  import opened Text

  datatype ArgType = Fd | Path | Buf | Size | Int | Uint | HexArg | Offset | Flags | Ptr

  /** A name out of one of the static tables. */
  type TableName = s: string | Plain(s) witness "x"

  datatype ArgInfo = ArgInfo(name: TableName, ty: ArgType)

  type ArgInfos = metas: seq<ArgInfo> | |metas| <= 6

  /** One line of the table; a category is its name. */
  datatype SyscallInfo = SyscallInfo(number: U32, name: TableName, category: string, args: ArgInfos)
}
