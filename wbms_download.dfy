/**
 * The `download` subcommand of `wbms` on an open session: with a query,
 * the expanded queries' CDX results are saved first; then redirects are
 * resolved and items downloaded, each phase only after the one before it
 * succeeded.
 */
module WbmsDownload {
  import opened Wrappers
  import Text
  import Digest
  import Commands
  import Session
  import Wbms

  type U8 = Text.U8

  /** The CDX phase: the queries of `expand_queries` searched and their
      results saved. The query log lists those queries, the phase fails
      exactly when one of their searches does, and no gzip file changes. */
  method CdxPhase(session: Session.Session, query: string, twitter: bool, search: Session.Search)
    returns (r: Result<(), Session.Error>)
    modifies session
    ensures var queries := Wbms.Expanded(Wbms.Kept(Wbms.Names(query), Text.Lowercase), twitter);
      && session.logs.queryLog == Some(Session.LinesText(queries))
      && (r.Success? <==> Session.SearchResults(queries, search).Success?)
    ensures session.data == old(session.data) && session.invalid == old(session.invalid)
  {
    var queries := Wbms.ExpandQueries(query, twitter);
    r := session.SaveCdxResults(queries, search);
  }

  /** The resolution phase: the redirects of the session resolved. It
      fails exactly when the redirects log cannot be read, and otherwise
      saves the resolved content in `data/`; `invalid/` is untouched. */
  method ResolvePhase(session: Session.Session, search: Session.Search, resolve: Session.Resolve)
    returns (r: Result<(), Session.Error>)
    modifies session
    ensures var work := Session.RedirectWork(old(session.logs), session.knownDigests);
      && (r.Success? <==> work.Success?)
      && (work.Success? ==> session.data == Session.SaveResolved(old(session.data), work.value, resolve, search))
    ensures session.invalid == old(session.invalid)
  {
    r := session.ResolveRedirects(resolve, search);
  }

  /** The download phase: the items of the session downloaded. It fails
      exactly when the logs cannot be read; otherwise every item of the
      worklist is counted once, as verified, mismatched or failed, and the
      downloads are saved. */
  method DownloadPhase(session: Session.Session, download: Session.Download, sha1: seq<U8> -> Digest.Sha1Value)
    returns (r: Result<(nat, nat, nat, nat), Session.Error>)
    modifies session
    ensures var work := Session.DownloadWork(old(session.logs), session.knownDigests);
      && (r.Success? <==> work.Success?)
      && (work.Success? ==>
            && r.value.0 + r.value.1 + r.value.3 == |work.value.1|
            && (session.data, session.invalid)
               == Session.SaveDownloads(old(session.data), old(session.invalid), work.value.1, download, sha1))
  {
    r := session.DownloadItems(download, sha1);
  }

  /** Redirects resolved, then, only when that succeeded, items
      downloaded; the phases that ran are returned with the outcome. */
  method ResolveAndDownload(session: Session.Session, search: Session.Search, resolve: Session.Resolve,
                            download: Session.Download, sha1: seq<U8> -> Digest.Sha1Value)
    returns (r: Result<(nat, nat, nat, nat), Session.Error>, ran: seq<Commands.Phase>)
    modifies session
    ensures ran == [Commands.ResolveRedirects] || ran == [Commands.ResolveRedirects, Commands.DownloadItems]
    ensures r.Success? ==> ran == [Commands.ResolveRedirects, Commands.DownloadItems]
  {
    ran := [Commands.ResolveRedirects];
    var resolved := ResolvePhase(session, search, resolve);
    if resolved.Failure? {
      return Failure(resolved.error), ran;
    }
    ran := ran + [Commands.DownloadItems];
    r := DownloadPhase(session, download, sha1);
  }

  /** The `download` subcommand on an open session: the phases of the plan
      run in order, each only after the one before it succeeded, the CDX
      phase on the queries of `expand_queries`; the phases that ran are
      returned with the outcome. */
  method Download(session: Session.Session, query: Option<string>, twitter: bool,
                  search: Session.Search, resolve: Session.Resolve,
                  download: Session.Download, sha1: seq<U8> -> Digest.Sha1Value)
    returns (r: Result<(nat, nat, nat, nat), Session.Error>, ran: seq<Commands.Phase>)
    modifies session
    ensures 1 <= |ran| && ran <= Commands.DownloadPlan(query.Some?)
    ensures r.Success? ==> ran == Commands.DownloadPlan(query.Some?)
  {
    ghost var plan := Commands.DownloadPlan(query.Some?);
    var first: seq<Commands.Phase> := [];
    if query.Some? {
      first := [Commands.SaveCdxResults];
      var saved := CdxPhase(session, query.value, twitter, search);
      if saved.Failure? {
        return Failure(saved.error), first;
      }
    }
    assert plan == first + [Commands.ResolveRedirects, Commands.DownloadItems];
    var rest;
    r, rest := ResolveAndDownload(session, search, resolve, download, sha1);
    ran := first + rest;
  }
}
