/** HoststarClient (src/hoststar.js): the session flag, the login flow and
    the download pass that ties the run traversal to the downloads.

    The page answers that the source reads from Puppeteer are inputs: the
    URL the browser shows after each step of the login (LoginPages), and, per
    backup run, whether its clicks work and which links it holds (Run). The
    network is an answer per URL (fetchOk) and the destination directory is a
    map from path to file state (Disk). */
module Hoststar {
  import opened Browser
  import opened FileNames
  import opened Traversal
  import opened Downloads

  const BaseUrl: string := "https://my.hoststar.ch"
  const LoginUrl: string := BaseUrl + "/login"
  const BackupUrl: string := BaseUrl + "/hosting/backup-lx"
  const UsernameField: string := "input[name=username]"
  const PasswordField: string := "input[name=password]"
  const LoginFailed: string := "Login failed."

  /** The options the client reads. `debug` only switches logging and the
      browser's visibility, which this model leaves out. */
  datatype Config = Config(username: string, password: string, debug: bool, automaticOnly: bool, destDir: string)

  /** The defaults that src/index.js spreads the user's configuration over. */
  const DefaultConfig: Config := Config("username", "password", true, true, "./")

  /** What the browser shows right after navigating to the login page, and
      right after submitting the login form. */
  datatype LoginPages = LoginPages(afterNavigate: string, afterSubmit: string)

  /** The events of one call of `login` once the browser page exists. */
  function LoginEvents(username: string, password: string, pages: LoginPages): (trace: seq<Event>)
    ensures |trace| >= 1 && trace[0] == Navigate(LoginUrl)
  {
    var failed := if StartsWith(pages.afterSubmit, LoginUrl) then [LogError(LoginFailed)] else [];
    var form := [TypeText(UsernameField, username), TypeText(PasswordField, password), SubmitForm] + failed;
    [Navigate(LoginUrl)] + (if StartsWith(pages.afterNavigate, LoginUrl) then form else [])
  }

  /** `login` first navigates to the login page; only if the browser is still
      there does it type both credentials and submit the form; only if it is
      still there after that does it log that the login failed. */
  lemma LoginSteps(username: string, password: string, pages: LoginPages)
    ensures var trace := LoginEvents(username, password, pages);
      && |trace| >= 1 && trace[0] == Navigate(LoginUrl)
      && (SubmitForm in trace <==> StartsWith(pages.afterNavigate, LoginUrl))
      && (TypeText(UsernameField, username) in trace <==> StartsWith(pages.afterNavigate, LoginUrl))
      && (TypeText(PasswordField, password) in trace <==> StartsWith(pages.afterNavigate, LoginUrl))
      && (LogError(LoginFailed) in trace
          <==> StartsWith(pages.afterNavigate, LoginUrl) && StartsWith(pages.afterSubmit, LoginUrl))
  {
  }

  /** What `downloadBackups` does before opening the backups page: nothing
      when logged in, otherwise `login`, which first opens the browser page
      when there is none. */
  function SessionEvents(config: Config, loggedIn: bool, hasDriver: bool, pages: LoginPages): (trace: seq<Event>)
    ensures trace == [] <==> loggedIn
  {
    if loggedIn then []
    else (if hasDriver then [] else [Navigate(BaseUrl)]) + LoginEvents(config.username, config.password, pages)
  }

  /** Logging in happens only when not logged in, and opens the browser page
      only when there is none. */
  lemma SessionSteps(config: Config, loggedIn: bool, hasDriver: bool, pages: LoginPages)
    ensures var trace := SessionEvents(config, loggedIn, hasDriver, pages);
      && (loggedIn <==> trace == [])
      && (!loggedIn ==> (trace[0] == Navigate(BaseUrl) <==> !hasDriver))
      && (!loggedIn ==> Navigate(LoginUrl) in trace)
  {
    if !loggedIn {
      var trace := SessionEvents(config, loggedIn, hasDriver, pages);
      var login := LoginEvents(config.username, config.password, pages);
      if !hasDriver {
        assert trace[1] == login[0];
      } else {
        assert trace == login;
      }
    }
  }

  class HoststarClient {
    const config: Config
    /** Set by `login` and never cleared. */
    var loggedIn: bool
    /** Whether `initialize` has opened the browser page (`this.driver`). */
    var hasDriver: bool
    /** Everything done through the browser and the logger so far. */
    var events: seq<Event>

    /** The page is open whenever the session is logged in: `login` opens it
        before it sets the flag. */
    predicate Valid()
      reads this
    {
      loggedIn ==> hasDriver
    }

    constructor (config: Config)
      ensures this.config == config
      ensures !loggedIn && !hasDriver && events == []
      ensures Valid()
    {
      this.config := config;
      loggedIn := false;
      hasDriver := false;
      events := [];
    }

    /** `initialize`: open the browser page and show the site's start page. */
    method Initialize()
      modifies this
      ensures hasDriver && loggedIn == old(loggedIn) && Valid()
      ensures events == old(events) + [Navigate(BaseUrl)]
    {
      hasDriver := true;
      events := events + [Navigate(BaseUrl)];
    }

    /** `login`: fill in and submit the form when the login page is shown.
        The session counts as logged in afterwards whether or not the browser
        left the login page; a failed login is only logged. */
    method Login(pages: LoginPages)
      modifies this
      ensures loggedIn && hasDriver && Valid()
      ensures events == old(events) + SessionEvents(config, false, old(hasDriver), pages)
    {
      if !hasDriver {
        Initialize();
      }
      var trace := [Navigate(LoginUrl)];
      if StartsWith(pages.afterNavigate, LoginUrl) {
        trace := trace + [TypeText(UsernameField, config.username), TypeText(PasswordField, config.password), SubmitForm];
        if StartsWith(pages.afterSubmit, LoginUrl) {
          trace := trace + [LogError(LoginFailed)];
        }
      }
      assert trace == LoginEvents(config.username, config.password, pages);
      events := events + trace;
      loggedIn := true;
    }

    /** `downloadBackups`: log in unless already logged in, open the backups
        page, expand each run in page order and start a download for each
        link of every run with more links than the threshold. The downloads
        are started inside the loop. The model assumes that those started
        before an abort run to the end, so the returned pass includes them
        whether or not the loop finished. */
    method DownloadBackups(pages: LoginPages, runs: seq<Run>, disk: Disk, fetchOk: string -> bool)
      returns (completion: Completion, queued: seq<string>, pass: Settled)
      requires Valid()
      modifies this
      ensures loggedIn && hasDriver && Valid()
      ensures events == old(events) + SessionEvents(config, old(loggedIn), old(hasDriver), pages)
        + ([Navigate(BackupUrl)] + WalkRuns(runs, config.automaticOnly).events)
      ensures completion == WalkRuns(runs, config.automaticOnly).completion
      ensures queued == WalkRuns(runs, config.automaticOnly).queued
      ensures pass == DownloadSeq(AsWritten, disk, config.destDir, queued, fetchOk)
    {
      if !loggedIn {
        Login(pages);
      }
      assert events == old(events) + SessionEvents(config, old(loggedIn), old(hasDriver), pages);
      var trace;
      trace, completion, queued, pass := HandleRuns(runs, config.automaticOnly, disk, config.destDir, fetchOk);
      events := events + ([Navigate(BackupUrl)] + trace);
    }
  }

  /** The loop of `downloadBackups` over the runs, in page order: click the
      run open (the fallback click only when the first one threw, an abort
      when that throws too), then queue the links of a qualifying run. The
      events it causes are returned for the caller's trace. */
  method HandleRuns(runs: seq<Run>, automaticOnly: bool, disk: Disk, destDir: string, fetchOk: string -> bool)
    returns (trace: seq<Event>, completion: Completion, queued: seq<string>, pass: Settled)
    ensures Walk(trace, queued, completion) == WalkRuns(runs, automaticOnly)
    ensures pass == DownloadSeq(AsWritten, disk, destDir, queued, fetchOk)
  {
    trace, completion, queued, pass := [], Finished, [], Settled([], [], disk);
    var i := 0;
    while i < |runs|
      invariant 0 <= i <= |runs|
      invariant Walk(trace, queued, completion) == WalkRuns(runs[..i], automaticOnly)
      invariant completion == Finished
      invariant pass == DownloadSeq(AsWritten, disk, destDir, queued, fetchOk)
    {
      ghost var after := RunStep(WalkRuns(runs[..i], automaticOnly), i, runs[i], automaticOnly);
      WalkRunsStep(runs, i, automaticOnly);
      assert WalkRuns(runs[..i + 1], automaticOnly) == after;
      var run := runs[i];
      // the primary click, and the in-page fallback when it threw
      trace := trace + ClickEvents(i, run);
      if BothClicksFail(run) {
        completion := Aborted(i);
        assert Walk(trace, queued, completion) == WalkRuns(runs[..i + 1], automaticOnly);
        AbortIsFinal(runs[..i + 1], runs[i + 1..], automaticOnly);
        assert runs[..i + 1] + runs[i + 1..] == runs;
        return;
      }
      if Qualifies(|run.hrefs|, automaticOnly) {
        var warnings;
        warnings, queued, pass := QueueLinks(run.hrefs, disk, destDir, queued, pass, fetchOk);
        trace := trace + warnings;
      }
      assert Walk(trace, queued, completion) == after;
      i := i + 1;
    }
    assert runs[..i] == runs;
  }

  /** The inner loop of `downloadBackups` over the links of one qualifying
      run: warn about a link without an `href`, then start its download all
      the same. `queued`, `statuses` and `diskAfter` are the pass so far,
      which started from `disk`; the warnings are returned for the caller's
      event trace. */
  method QueueLinks(hrefs: seq<string>, ghost disk: Disk, destDir: string, queued: seq<string>,
                    pass: Settled, fetchOk: string -> bool)
    returns (warnings: seq<Event>, queued': seq<string>, pass': Settled)
    requires pass == DownloadSeq(AsWritten, disk, destDir, queued, fetchOk)
    ensures warnings == LinkWarnings(hrefs)
    ensures queued' == queued + hrefs
    ensures pass' == DownloadSeq(AsWritten, disk, destDir, queued', fetchOk)
  {
    warnings, queued', pass' := [], queued, pass;
    var j := 0;
    while j < |hrefs|
      invariant 0 <= j <= |hrefs|
      invariant warnings == LinkWarnings(hrefs[..j])
      invariant queued' == queued + hrefs[..j]
      invariant pass' == DownloadSeq(AsWritten, disk, destDir, queued', fetchOk)
    {
      var url := hrefs[j];
      LinkWarningsSnoc(hrefs, j);
      AppendNext(queued, hrefs, j);
      DownloadSeqExtend(AsWritten, disk, destDir, queued', pass', url, fetchOk);
      if url == "" {
        warnings := warnings + [LogWarning(UrlNotFound)];
      }
      // downloadFile as written: the GET is sent whether or not the file exists
      var task := DownloadFileAsWritten(pass'.disk, destDir, url, fetchOk(url));
      queued' := queued' + [url];
      pass' := Settled(pass'.statuses + [task.status], pass'.fetched + [url], task.disk);
      j := j + 1;
    }
    assert hrefs[..j] == hrefs;
  }

  /** One more element of `tail` moves from the rest to the prefix. */
  lemma AppendNext<T>(head: seq<T>, tail: seq<T>, j: nat)
    requires j < |tail|
    ensures head + tail[..j] + [tail[j]] == head + tail[..j + 1]
  {
    assert tail[..j + 1] == tail[..j] + [tail[j]];
  }

  /** The end-to-end scenario: two runs whose expand clicks work, three
      backup links each with distinct file names, `automaticOnly` set, an
      empty destination and every transfer succeeding give six files. */
  lemma TwoRunsOfThreeGiveSixFiles(r1: Run, r2: Run, destDir: string, fetchOk: string -> bool)
    requires !BothClicksFail(r1) && !BothClicksFail(r2)
    requires |r1.hrefs| == 3 && |r2.hrefs| == 3
    requires var links := r1.hrefs + r2.hrefs;
      forall i, j :: 0 <= i < j < |links| ==> FileName(links[i]) != FileName(links[j])
    requires forall u :: fetchOk(u)
    ensures var walk := WalkRuns([r1, r2], true);
      && walk.completion == Finished
      && walk.queued == r1.hrefs + r2.hrefs
      && |DownloadSeq(AsWritten, map[], destDir, walk.queued, fetchOk).disk| == 6
  {
    assert [r1, r2][..1] == [r1];
    assert [r1][..0] == [];
    assert WalkRuns([], true) == Walk([], [], Finished);
    var first := WalkRuns([r1], true);
    assert first == RunStep(Walk([], [], Finished), 0, r1, true);
    assert first.queued == r1.hrefs && first.completion == Finished;
    var links := r1.hrefs + r2.hrefs;
    assert WalkRuns([r1, r2], true) == RunStep(first, 1, r2, true);
    assert WalkRuns([r1, r2], true).queued == links;
    DistinctNamesDistinctDests(destDir, links);
    FreshPassFileCount(AsWritten, map[], destDir, links, fetchOk);
  }

  lemma TwoPasses(first: seq<Event>, second: seq<Event>, session: seq<Event>, pass: seq<Event>)
    requires first == [] + session + pass
    requires second == first + [] + pass
    ensures second == session + pass + pass
  {
  }

  /** A second pass on the same client does not log in again. Against the
      same network it reports every file as skipped and leaves the disk as
      the first pass left it, yet it sends every GET again. */
  method PassTwice(config: Config, pages: LoginPages, runs: seq<Run>, disk: Disk, fetchOk: string -> bool)
    returns (client: HoststarClient, first: Settled, second: Settled)
    ensures fresh(client) && client.loggedIn
    ensures var pass := [Navigate(BackupUrl)] + WalkRuns(runs, config.automaticOnly).events;
      client.events == [Navigate(BaseUrl)] + LoginEvents(config.username, config.password, pages) + pass + pass
    ensures second.disk == first.disk && AllSkipped(second.statuses)
    ensures second.fetched == first.fetched == WalkRuns(runs, config.automaticOnly).queued
  {
    client := new HoststarClient(config);
    var firstEnd, queued, secondEnd, requeued;
    firstEnd, queued, first := client.DownloadBackups(pages, runs, disk, fetchOk);
    ghost var afterFirst := client.events;
    secondEnd, requeued, second := client.DownloadBackups(pages, runs, first.disk, fetchOk);
    TwoPasses(afterFirst, client.events, SessionEvents(config, false, false, pages),
              [Navigate(BackupUrl)] + WalkRuns(runs, config.automaticOnly).events);
    AsWrittenRerun(disk, config.destDir, queued, fetchOk);
    AsWrittenFetchesEverything(disk, config.destDir, queued, fetchOk);
  }
}
