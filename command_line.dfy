/**
 * The page argument (`parseArgs` in main.go). `args` stands for `os.Args` (program name first) and
 * `atoi` for `strconv.Atoi`, whose failure is `None`. The result is the requested 1-based page,
 * or 0 for "all pages"; a missing, unparsable or non-positive argument falls back to 0
 * (the warning printed in that case is not modelled).
 */
module CommandLine {

  import opened Wrappers

  /** Whether the first argument parses to a usable page number. */
  predicate IsPageArgument(args: seq<string>, atoi: string -> Option<int>)
  {
    |args| >= 2 && atoi(args[1]).Some? && atoi(args[1]).value >= 1
  }

  function ParseArgs(args: seq<string>, atoi: string -> Option<int>): (page: int)
    ensures page == 0 || page >= 1
    ensures page >= 1 <==> IsPageArgument(args, atoi)
    ensures IsPageArgument(args, atoi) ==> page == atoi(args[1]).value
  {
    if |args| < 2 then
      0
    else
      match atoi(args[1])
      case None => 0
      case Some(page) => if page < 1 then 0 else page
  }
}
