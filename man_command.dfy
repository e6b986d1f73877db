/**
 * The external `man` invocation shared by the lookup action and the man-page reader:
 * both build the same argument vector, restricted to sections 2 and 3, and both see
 * the finished process only as an exit code and two captured streams.
 */
module ManCommand {

  /** Only "System calls" (section 2) and "Library functions" (section 3). */
  const ManSections: string := "2:3"

  /** What a finished `man` process leaves behind. */
  datatype ExecResult = ExecResult(exitCode: int, stdout: string, stderr: string)

  /** The argument vector `man -S 2:3 <term>`; the term is passed as one argument, unquoted. */
  function ManArgs(term: string): (argv: seq<string>)
    ensures |argv| == 4 && argv[3] == term
    ensures argv[..3] == ["man", "-S", "2:3"]
  {
    ["man", "-S", ManSections, term]
  }
}
