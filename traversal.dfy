/** The walk over the backup runs in HoststarClient.downloadBackups
    (src/hoststar.js:75-110): each run is expanded by a click (with a fallback
    click when the first one throws), and the links of every run that has
    more links than the `automaticOnly` threshold are queued for download.

    WalkRuns is the specification the client's loop is proved against; the
    reference definitions FirstDeadRun and Collected say the same thing run by
    run from the front, and the lemmas connect the two. */
module Traversal {
  import opened Browser

  const RunSelector: string := "#frame .content .hsBox.withBlockLayout"
  const RunClickSelector: string := ".withSwingAction .gather"
  /** The fallback re-queries all click targets of all runs in the page. */
  const FallbackSelector: string := RunSelector + " " + RunClickSelector
  const UrlNotFound: string := "URL not found"

  /** One backup run as the page presents it: whether looking up and clicking
      its expand control works, whether the in-page fallback click works, and
      the `href` of each link in its body, in page order (an empty string when
      a link has none). */
  datatype Run = Run(primaryClickOk: bool, fallbackClickOk: bool, hrefs: seq<string>)

  /** Either every run was handled, or the exception of the fallback click of
      run `runIdx` left the loop. */
  datatype Completion = Finished | Aborted(runIdx: nat)

  /** What handling a sequence of runs produced: the browser and log events,
      the URLs handed to downloadFile, in order, and how the loop ended. */
  datatype Walk = Walk(events: seq<Event>, queued: seq<string>, completion: Completion)

  /** `automaticOnly` as JavaScript's `>` sees it: true is 1, false is 0. */
  function Threshold(automaticOnly: bool): nat
  {
    if automaticOnly then 1 else 0
  }

  /** The inclusion test `backups.length > this.config.automaticOnly`. */
  function Qualifies(linkCount: nat, automaticOnly: bool): (q: bool)
    ensures q <==> if automaticOnly then linkCount >= 2 else linkCount >= 1
  {
    linkCount > Threshold(automaticOnly)
  }

  /** The run whose expand control cannot be clicked either way. */
  predicate BothClicksFail(run: Run)
  {
    !run.primaryClickOk && !run.fallbackClickOk
  }

  /** The click attempts on run `idx`: the fallback only after the primary
      lookup or click threw, and with the same index. */
  function ClickEvents(idx: nat, run: Run): (clicks: seq<Event>)
    ensures |clicks| == if run.primaryClickOk then 1 else 2
    ensures clicks[0] == PrimaryClick(idx, RunClickSelector)
    ensures !run.primaryClickOk ==> clicks[1] == FallbackClick(idx, FallbackSelector)
  {
    [PrimaryClick(idx, RunClickSelector)]
    + (if run.primaryClickOk then [] else [FallbackClick(idx, FallbackSelector)])
  }

  /** The warnings logged while queueing the links of a run, in link order. */
  function LinkWarnings(hrefs: seq<string>): (warnings: seq<Event>)
    ensures |warnings| <= |hrefs|
    decreases |hrefs|
  {
    if hrefs == [] then []
    else
      var n := |hrefs| - 1;
      LinkWarnings(hrefs[..n]) + (if hrefs[n] == "" then [LogWarning(UrlNotFound)] else [])
  }

  /** One more link: a warning exactly when it has no `href`. */
  lemma LinkWarningsSnoc(hrefs: seq<string>, j: nat)
    requires j < |hrefs|
    ensures LinkWarnings(hrefs[..j + 1])
        == LinkWarnings(hrefs[..j]) + (if hrefs[j] == "" then [LogWarning(UrlNotFound)] else [])
  {
    assert hrefs[..j + 1][..j] == hrefs[..j];
  }

  /** Every warning is "URL not found", and there is one exactly when some
      link has no `href`; such a link is queued all the same. */
  lemma {:induction false} LinkWarningsMeaning(hrefs: seq<string>)
    ensures forall k :: 0 <= k < |LinkWarnings(hrefs)| ==> LinkWarnings(hrefs)[k] == LogWarning(UrlNotFound)
    ensures LinkWarnings(hrefs) == [] <==> "" !in hrefs
    decreases |hrefs|
  {
    if hrefs != [] {
      var n := |hrefs| - 1;
      LinkWarningsMeaning(hrefs[..n]);
      assert hrefs == hrefs[..n] + [hrefs[n]];
    }
  }

  /** Handling run `idx` after the earlier ones finished. */
  function RunStep(before: Walk, idx: nat, run: Run, automaticOnly: bool): (after: Walk)
    ensures after.completion.Aborted? <==> BothClicksFail(run)
  {
    var clicked := before.events + ClickEvents(idx, run);
    if BothClicksFail(run) then Walk(clicked, before.queued, Aborted(idx))
    else if Qualifies(|run.hrefs|, automaticOnly) then
      Walk(clicked + LinkWarnings(run.hrefs), before.queued + run.hrefs, Finished)
    else Walk(clicked, before.queued, Finished)
  }

  /** A run aborts the loop, at its own index, exactly when both of its
      clicks fail; otherwise it adds its contribution after the links queued
      so far. */
  lemma RunStepOutcome(before: Walk, idx: nat, run: Run, automaticOnly: bool)
    ensures var after := RunStep(before, idx, run, automaticOnly);
      && after.completion == (if BothClicksFail(run) then Aborted(idx) else Finished)
      && after.queued == before.queued + if BothClicksFail(run) then [] else Contribution(run, automaticOnly)
  {
  }

  /** The loop over the runs, one step per run in page order, stopping at the
      first abort. */
  function WalkRuns(runs: seq<Run>, automaticOnly: bool): (walk: Walk)
    ensures walk.completion.Aborted? ==> walk.completion.runIdx < |runs|
    decreases |runs|
  {
    if runs == [] then Walk([], [], Finished)
    else
      var n := |runs| - 1;
      var before := WalkRuns(runs[..n], automaticOnly);
      if before.completion.Aborted? then before else RunStep(before, n, runs[n], automaticOnly)
  }

  /** One more turn of the loop: the walk over the first `i + 1` runs is the
      walk over the first `i` followed by run `i`, unless it had aborted. */
  lemma WalkRunsStep(runs: seq<Run>, i: nat, automaticOnly: bool)
    requires i < |runs|
    ensures var before := WalkRuns(runs[..i], automaticOnly);
      WalkRuns(runs[..i + 1], automaticOnly)
        == if before.completion.Aborted? then before else RunStep(before, i, runs[i], automaticOnly)
  {
    assert runs[..i + 1][..i] == runs[..i];
  }

  /** Reference: the index of the first run whose two clicks both fail, or
      the number of runs when there is none. */
  function FirstDeadRun(runs: seq<Run>): (k: nat)
    ensures k <= |runs|
    ensures forall i :: 0 <= i < k ==> !BothClicksFail(runs[i])
    ensures k < |runs| ==> BothClicksFail(runs[k])
    decreases |runs|
  {
    if runs == [] || BothClicksFail(runs[0]) then 0 else 1 + FirstDeadRun(runs[1..])
  }

  /** Reference: the links a run contributes. */
  function Contribution(run: Run, automaticOnly: bool): seq<string>
  {
    if Qualifies(|run.hrefs|, automaticOnly) then run.hrefs else []
  }

  /** Reference: the links of every qualifying run, run after run. */
  function Collected(runs: seq<Run>, automaticOnly: bool): seq<string>
    decreases |runs|
  {
    if runs == [] then [] else Contribution(runs[0], automaticOnly) + Collected(runs[1..], automaticOnly)
  }

  /** Collecting is compositional: the links of the earlier runs come first. */
  lemma {:induction false} CollectedAppend(a: seq<Run>, b: seq<Run>, automaticOnly: bool)
    ensures Collected(a + b, automaticOnly) == Collected(a, automaticOnly) + Collected(b, automaticOnly)
    decreases |a|
  {
    if a == [] {
      assert a + b == b;
    } else {
      var r, rest := a[0], a[1..];
      var head := Contribution(r, automaticOnly);
      var left, right := Collected(rest, automaticOnly), Collected(b, automaticOnly);
      CollectedAppend(rest, b, automaticOnly);
      CollectedCons(r, rest + b, automaticOnly);
      CollectedCons(r, rest, automaticOnly);
      FrontSplit(a, b);
      Assoc(head, left, right);
    }
  }

  lemma FrontSplit<T>(a: seq<T>, b: seq<T>)
    requires a != []
    ensures a == [a[0]] + a[1..] && a + b == [a[0]] + (a[1..] + b)
  {
  }

  lemma Assoc<T>(x: seq<T>, y: seq<T>, z: seq<T>)
    ensures x + (y + z) == (x + y) + z
  {
  }

  lemma CollectedCons(r: Run, rest: seq<Run>, automaticOnly: bool)
    ensures Collected([r] + rest, automaticOnly) == Contribution(r, automaticOnly) + Collected(rest, automaticOnly)
  {
    assert ([r] + rest)[1..] == rest;
  }

  /** A URL is collected exactly when some qualifying run links to it. */
  lemma {:induction false} CollectedMembership(runs: seq<Run>, automaticOnly: bool, url: string)
    ensures url in Collected(runs, automaticOnly)
        <==> exists i :: 0 <= i < |runs| && Qualifies(|runs[i].hrefs|, automaticOnly) && url in runs[i].hrefs
    decreases |runs|
  {
    if runs != [] {
      CollectedMembership(runs[1..], automaticOnly, url);
      if url in Collected(runs, automaticOnly) && url !in Contribution(runs[0], automaticOnly) {
        var i :| 0 <= i < |runs[1..]| && Qualifies(|runs[1..][i].hrefs|, automaticOnly) && url in runs[1..][i].hrefs;
        assert runs[1..][i] == runs[i + 1];
      }
      if exists i :: 0 <= i < |runs| && Qualifies(|runs[i].hrefs|, automaticOnly) && url in runs[i].hrefs {
        var i :| 0 <= i < |runs| && Qualifies(|runs[i].hrefs|, automaticOnly) && url in runs[i].hrefs;
        if i > 0 {
          assert runs[1..][i - 1] == runs[i];
        }
      }
    }
  }

  /** FirstDeadRun of a sequence extended by one run. */
  lemma {:induction false} FirstDeadRunSnoc(p: seq<Run>, r: Run)
    ensures FirstDeadRun(p + [r])
        == if FirstDeadRun(p) < |p| then FirstDeadRun(p) else if BothClicksFail(r) then |p| else |p| + 1
    decreases |p|
  {
    if p == [] {
      assert p + [r] == [r];
    } else {
      assert (p + [r])[0] == p[0];
      assert (p + [r])[1..] == p[1..] + [r];
      FirstDeadRunSnoc(p[1..], r);
    }
  }

  /** Once the loop has aborted, later runs change nothing: they are not
      clicked and their links are not queued. */
  lemma {:induction false} AbortIsFinal(p: seq<Run>, q: seq<Run>, automaticOnly: bool)
    requires WalkRuns(p, automaticOnly).completion.Aborted?
    ensures WalkRuns(p + q, automaticOnly) == WalkRuns(p, automaticOnly)
    decreases |q|
  {
    if q == [] {
      assert p + q == p;
    } else {
      var n := |q| - 1;
      AbortIsFinal(p, q[..n], automaticOnly);
      assert (p + q)[..|p + q| - 1] == p + q[..n];
    }
  }

  /** The loop aborts exactly at the first run whose clicks both fail. */
  lemma {:induction false} WalkCompletion(runs: seq<Run>, automaticOnly: bool)
    ensures WalkRuns(runs, automaticOnly).completion
        == if FirstDeadRun(runs) < |runs| then Aborted(FirstDeadRun(runs)) else Finished
    decreases |runs|
  {
    if runs != [] {
      var n := |runs| - 1;
      var p, r := runs[..n], runs[n];
      assert runs == p + [r];
      WalkCompletion(p, automaticOnly);
      FirstDeadRunSnoc(p, r);
    }
  }

  /** The loop queues the links of the qualifying runs before the first run
      whose clicks both fail. */
  lemma {:induction false} WalkQueued(runs: seq<Run>, automaticOnly: bool)
    ensures WalkRuns(runs, automaticOnly).queued == Collected(runs[..FirstDeadRun(runs)], automaticOnly)
    decreases |runs|
  {
    if runs != [] {
      var n := |runs| - 1;
      var p, r := runs[..n], runs[n];
      WalkQueued(p, automaticOnly);
      WalkCompletion(p, automaticOnly);
      var k := FirstDeadRun(p);
      SnocPrefix(runs, k);
      FirstDeadRunSnoc(p, r);
      if k == |p| {
        if !BothClicksFail(r) {
          CollectedSnoc(p, r, automaticOnly);
          assert runs[..k + 1] == runs;
        }
      }
    }
  }

  /** One more run adds its contribution at the end. */
  lemma CollectedSnoc(p: seq<Run>, r: Run, automaticOnly: bool)
    ensures Collected(p + [r], automaticOnly) == Collected(p, automaticOnly) + Contribution(r, automaticOnly)
  {
    CollectedAppend(p, [r], automaticOnly);
    CollectedCons(r, [], automaticOnly);
    assert [r] + [] == [r];
    assert Contribution(r, automaticOnly) + [] == Contribution(r, automaticOnly);
  }

  /** The prefixes of a sequence are those of its front part, and the
      sequence is its front part and its last element. */
  lemma SnocPrefix<T>(s: seq<T>, k: nat)
    requires k < |s|
    ensures s[..k] == s[..|s| - 1][..k]
    ensures s == s[..|s| - 1] + [s[|s| - 1]]
  {
  }

  /** The loop agrees with the reference: it queues the links of the
      qualifying runs before the first run whose clicks both fail, in page
      order, and aborts at that run. */
  lemma WalkMatchesReference(runs: seq<Run>, automaticOnly: bool)
    ensures var k := FirstDeadRun(runs);
      && WalkRuns(runs, automaticOnly).queued == Collected(runs[..k], automaticOnly)
      && WalkRuns(runs, automaticOnly).completion == (if k < |runs| then Aborted(k) else Finished)
  {
    WalkQueued(runs, automaticOnly);
    WalkCompletion(runs, automaticOnly);
  }

  /** Which URLs end up queued: exactly the links of the qualifying runs
      before the first run whose clicks both fail, empty `href`s included. */
  lemma QueuedMembership(runs: seq<Run>, automaticOnly: bool, url: string)
    ensures url in WalkRuns(runs, automaticOnly).queued
        <==> exists i :: 0 <= i < FirstDeadRun(runs) && Qualifies(|runs[i].hrefs|, automaticOnly) && url in runs[i].hrefs
  {
    var k := FirstDeadRun(runs);
    WalkMatchesReference(runs, automaticOnly);
    CollectedMembership(runs[..k], automaticOnly, url);
    assert forall i :: 0 <= i < k ==> runs[..k][i] == runs[i];
  }

  /** The clicks among the events of one step are those of ClickEvents: the
      warnings that may follow are no clicks. */
  lemma StepClicks(before: Walk, idx: nat, run: Run, automaticOnly: bool, i: nat)
    ensures PrimaryClick(i, RunClickSelector) in RunStep(before, idx, run, automaticOnly).events
        <==> PrimaryClick(i, RunClickSelector) in before.events || i == idx
    ensures FallbackClick(i, FallbackSelector) in RunStep(before, idx, run, automaticOnly).events
        <==> FallbackClick(i, FallbackSelector) in before.events || (i == idx && !run.primaryClickOk)
  {
    var warnings := LinkWarnings(run.hrefs);
    LinkWarningsMeaning(run.hrefs);
    assert PrimaryClick(i, RunClickSelector) !in warnings;
    assert FallbackClick(i, FallbackSelector) !in warnings;
  }

  /** Which clicks happen: every run up to and including the first dead one
      gets a primary click, and exactly those of them whose primary click threw
      get a fallback click with the same index. */
  lemma {:induction false} ClickTrace(runs: seq<Run>, automaticOnly: bool, i: nat)
    ensures PrimaryClick(i, RunClickSelector) in WalkRuns(runs, automaticOnly).events
        <==> i < |runs| && i <= FirstDeadRun(runs)
    ensures FallbackClick(i, FallbackSelector) in WalkRuns(runs, automaticOnly).events
        <==> i < |runs| && i <= FirstDeadRun(runs) && !runs[i].primaryClickOk
    decreases |runs|
  {
    if runs != [] {
      var n := |runs| - 1;
      var p, r := runs[..n], runs[n];
      assert runs == p + [r];
      ClickTrace(p, automaticOnly, i);
      WalkCompletion(p, automaticOnly);
      FirstDeadRunSnoc(p, r);
      var before := WalkRuns(p, automaticOnly);
      if !before.completion.Aborted? {
        StepClicks(before, n, r, automaticOnly, i);
      }
      if i < n {
        assert runs[i] == p[i];
      }
    }
  }
}
