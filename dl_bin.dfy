/**
 * The `dl` command of the client crate: its query list is every
 * comma-separated part of the query trimmed and expanded into its four
 * Twitter URL patterns, in order and with repeats kept (the list is
 * `Commands.Expansions` of the parts); and its run resumes an earlier
 * session or starts from a query.
 */
module DlBin {
  import opened Wrappers
  import Commands

  /** The phases `dl` runs: resuming skips the CDX phase, a query runs
      it first, and with neither nothing runs. */
  function Plan(resume: bool, query: Option<string>): (plan: seq<Commands.Phase>)
    ensures Commands.SaveCdxResults in plan <==> !resume && query.Some?
    ensures plan != [] <==> resume || query.Some?
    ensures plan != [] ==> |plan| >= 2 && plan[|plan| - 2..] == [Commands.ResolveRedirects, Commands.DownloadItems]
  {
    if resume then [Commands.ResolveRedirects, Commands.DownloadItems]
    else if query.Some? then [Commands.SaveCdxResults, Commands.ResolveRedirects, Commands.DownloadItems]
    else []
  }

  /** `dl` runs the phases of a `wbms` download run: resuming is a run
      without a query, and resume mode wins over a query. */
  lemma PlanIsDownloadPlan(resume: bool, query: Option<string>)
    requires resume || query.Some?
    ensures Plan(resume, query) == Commands.DownloadPlan(!resume)
  {
  }
}
