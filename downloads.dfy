/** The download of one backup file, HoststarClient.downloadFile
    (src/hoststar.js:121-142), and the downloads of a whole pass one after the
    other.

    The filesystem is a map from path to what the file holds (a complete
    backup or a partial one); the network is an answer, per URL, to whether
    the GET streamed the whole body or hit an error. `requested` records
    whether the task opened a write stream and sent the GET at all.

    Both the code as written and the behaviour its log message and comment
    intend are modelled; a pass runs either one (Version). The client runs
    the code as written. */
module Downloads {
  import opened FileNames

  datatype FileState = Complete | Partial

  type Disk = map<string, FileState>

  /** How a task's promise settled: at once because the file existed, after
      the body was written, or after a transport error (which resolves too:
      nothing ever rejects). */
  datatype Status = Skipped | Completed | Failed

  datatype Task = Task(status: Status, requested: bool, disk: Disk)

  /** `p` holds the same file in both disks, or is absent from both. */
  predicate SameAt(d1: Disk, d2: Disk, p: string)
  {
    && (p in d1 <==> p in d2)
    && (p in d1 ==> d1[p] == d2[p])
  }

  /** downloadFile as written. The existence check resolves the promise but
      does not return, so the write stream is opened (truncating the file) and
      the GET is sent anyway; the first `resolve()` decides the status. The
      error handler passes the stream, not the path, to `fs.unlink`, so the
      partial file is not removed. (That call throws; the model reports the
      task as Failed and goes on.) */
  function DownloadFileAsWritten(disk: Disk, destDir: string, url: string, fetchOk: bool): (t: Task)
    ensures t.requested
    ensures t.status == Skipped <==> DestFile(destDir, url) in disk
    ensures t.status == Completed <==> DestFile(destDir, url) !in disk && fetchOk
    ensures DestFile(destDir, url) in t.disk
    ensures t.disk[DestFile(destDir, url)] == if fetchOk then Complete else Partial
    ensures t.disk - {DestFile(destDir, url)} == disk - {DestFile(destDir, url)}
  {
    var dest := DestFile(destDir, url);
    var status := if dest in disk then Skipped else if fetchOk then Completed else Failed;
    Task(status, true, disk[dest := if fetchOk then Complete else Partial])
  }

  /** downloadFile as its log message ("already exists. Skipping.") and its
      error handler's comment ("Delete the file") intend it: an existing file
      is left alone and nothing is fetched; a failed transfer leaves no file. */
  function DownloadFile(disk: Disk, destDir: string, url: string, fetchOk: bool): (t: Task)
    ensures t.requested <==> DestFile(destDir, url) !in disk
    ensures t.status == Skipped <==> !t.requested
    ensures t.status == Completed <==> t.requested && fetchOk
    ensures t.status == Completed ==> t.disk == disk[DestFile(destDir, url) := Complete]
    ensures t.status != Completed ==> t.disk == disk
  {
    var dest := DestFile(destDir, url);
    if dest in disk then Task(Skipped, false, disk)
    else if fetchOk then Task(Completed, true, disk[dest := Complete])
    else Task(Failed, true, disk)
  }

  /** As written, a complete backup already on disk is reported as skipped,
      yet fetched again, and when that second transfer fails the backup is
      left truncated. */
  lemma ExistingBackupIsClobbered(disk: Disk, destDir: string, url: string)
    requires DestFile(destDir, url) in disk && disk[DestFile(destDir, url)] == Complete
    ensures var t := DownloadFileAsWritten(disk, destDir, url, false);
      t.status == Skipped && t.requested && t.disk[DestFile(destDir, url)] == Partial
  {
  }

  /** The same input with the intended behaviour: nothing is fetched and the
      backup stays as it was. */
  lemma ExistingBackupIsKept(disk: Disk, destDir: string, url: string, fetchOk: bool)
    requires DestFile(destDir, url) in disk && disk[DestFile(destDir, url)] == Complete
    ensures var t := DownloadFile(disk, destDir, url, fetchOk);
      t.status == Skipped && !t.requested && t.disk[DestFile(destDir, url)] == Complete
  {
  }

  /** As written, a transfer that fails leaves a partial file behind. The
      next call reports that file as skipped but, for want of the `return`,
      fetches it again; with that `return` added and the `unlink` left as it
      is, the next call would skip the partial file for good. */
  lemma FailedTransferLeavesPartialFile(disk: Disk, destDir: string, url: string, laterOk: bool)
    requires DestFile(destDir, url) !in disk
    ensures var t := DownloadFileAsWritten(disk, destDir, url, false);
      var next := DownloadFileAsWritten(t.disk, destDir, url, laterOk);
      && t.status == Failed
      && t.disk[DestFile(destDir, url)] == Partial
      && next.status == Skipped && next.requested
      && !DownloadFile(t.disk, destDir, url, laterOk).requested
  {
  }

  /** The same input with the intended behaviour: no file is left behind, so
      the next call fetches the backup again. */
  lemma FailedTransferIsRetried(disk: Disk, destDir: string, url: string, laterOk: bool)
    requires DestFile(destDir, url) !in disk
    ensures var t := DownloadFile(disk, destDir, url, false);
      && t.status == Failed
      && t.disk == disk
      && DownloadFile(t.disk, destDir, url, laterOk).requested
  {
  }

  /** Which downloadFile a pass runs: the code as written, or the corrected
      one. */
  datatype Version = AsWritten | Corrected

  function Download(version: Version, disk: Disk, destDir: string, url: string, fetchOk: bool): Task
  {
    match version
    case AsWritten => DownloadFileAsWritten(disk, destDir, url, fetchOk)
    case Corrected => DownloadFile(disk, destDir, url, fetchOk)
  }

  /** What both versions share: the status says whether the destination
      existed and whether the transfer worked, a completed task leaves a
      complete file, and a skipped one leaves a file in place. */
  lemma DownloadFacts(version: Version, disk: Disk, destDir: string, url: string, fetchOk: bool)
    ensures var t, dest := Download(version, disk, destDir, url, fetchOk), DestFile(destDir, url);
      && (t.status == Skipped <==> dest in disk)
      && (t.status == Completed <==> dest !in disk && fetchOk)
      && (t.status == Completed ==> t.disk == disk[dest := Complete])
      && (t.status == Skipped ==> dest in t.disk)
  {
  }

  /** In both versions a task removes no file and adds at most its
      destination. */
  lemma DownloadKeys(version: Version, disk: Disk, destDir: string, url: string, fetchOk: bool)
    ensures disk.Keys <= Download(version, disk, destDir, url, fetchOk).disk.Keys <= disk.Keys + {DestFile(destDir, url)}
  {
  }

  /** In both versions a task leaves every path but its destination alone. */
  lemma DownloadLeavesOthers(version: Version, disk: Disk, destDir: string, url: string, fetchOk: bool, p: string)
    requires p != DestFile(destDir, url)
    ensures SameAt(Download(version, disk, destDir, url, fetchOk).disk, disk, p)
  {
    var t, dest := Download(version, disk, destDir, url, fetchOk), DestFile(destDir, url);
    if version == AsWritten {
      assert p in t.disk - {dest} <==> p in disk - {dest};
    }
  }

  /** A task's status, whether it fetches, and what it leaves at its
      destination depend only on what the disk holds there. */
  lemma DownloadDependsOnDest(version: Version, d1: Disk, d2: Disk, destDir: string, url: string, fetchOk: bool)
    requires SameAt(d1, d2, DestFile(destDir, url))
    ensures var t1, t2 := Download(version, d1, destDir, url, fetchOk), Download(version, d2, destDir, url, fetchOk);
      && t1.status == t2.status && t1.requested == t2.requested
      && SameAt(t1.disk, t2.disk, DestFile(destDir, url))
  {
  }

  /** The outcome of a pass: one status per URL, the URLs whose GET was sent,
      in order, and the disk afterwards. */
  datatype Settled = Settled(statuses: seq<Status>, fetched: seq<string>, disk: Disk)

  /** The downloads of one pass, one task per queued URL, in queue order. */
  function DownloadSeq(version: Version, disk: Disk, destDir: string, urls: seq<string>, fetchOk: string -> bool): (s: Settled)
    ensures |s.statuses| == |urls|
    ensures |s.fetched| <= |urls|
    decreases |urls|
  {
    if urls == [] then Settled([], [], disk)
    else
      var n := |urls| - 1;
      var before := DownloadSeq(version, disk, destDir, urls[..n], fetchOk);
      var t := Download(version, before.disk, destDir, urls[n], fetchOk(urls[n]));
      Settled(before.statuses + [t.status], before.fetched + (if t.requested then [urls[n]] else []), t.disk)
  }

  /** One more URL: the pass so far, then its task against the disk it left. */
  lemma DownloadSeqSnoc(version: Version, disk: Disk, destDir: string, urls: seq<string>, url: string, fetchOk: string -> bool)
    ensures var before := DownloadSeq(version, disk, destDir, urls, fetchOk);
      var t := Download(version, before.disk, destDir, url, fetchOk(url));
      DownloadSeq(version, disk, destDir, urls + [url], fetchOk)
        == Settled(before.statuses + [t.status], before.fetched + (if t.requested then [url] else []), t.disk)
  {
    assert (urls + [url])[..|urls|] == urls;
  }

  /** DownloadSeqSnoc from a known outcome of the pass so far. */
  lemma DownloadSeqExtend(version: Version, disk: Disk, destDir: string, urls: seq<string>, s: Settled,
                          url: string, fetchOk: string -> bool)
    requires s == DownloadSeq(version, disk, destDir, urls, fetchOk)
    ensures var t := Download(version, s.disk, destDir, url, fetchOk(url));
      Settled(s.statuses + [t.status], s.fetched + (if t.requested then [url] else []), t.disk)
        == DownloadSeq(version, disk, destDir, urls + [url], fetchOk)
  {
    DownloadSeqSnoc(version, disk, destDir, urls, url, fetchOk);
  }

  /** A non-empty sequence is its front part followed by its last element. */
  lemma FrontAndLast<T>(s: seq<T>)
    requires s != []
    ensures s[..|s| - 1] + [s[|s| - 1]] == s
  {
  }

  /** The destinations of a list of URLs. */
  function Dests(destDir: string, urls: seq<string>): set<string>
  {
    set u | u in urls :: DestFile(destDir, u)
  }

  lemma DestsSnoc(destDir: string, urls: seq<string>, url: string)
    ensures Dests(destDir, urls + [url]) == Dests(destDir, urls) + {DestFile(destDir, url)}
  {
    var both := urls + [url];
    forall u | u in both ensures u in urls || u == url {
      var k :| 0 <= k < |both| && both[k] == u;
      if k < |urls| {
        assert both[k] == urls[k];
      }
    }
    assert both[|urls|] == url;
    forall u | u in urls ensures u in both {
      var k :| 0 <= k < |urls| && urls[k] == u;
      assert both[k] == u;
    }
  }

  /** A pass, in either version, removes no file and creates files only at
      the destinations of its URLs. */
  lemma {:induction false} PassKeys(version: Version, disk: Disk, destDir: string, urls: seq<string>, fetchOk: string -> bool)
    ensures var after := DownloadSeq(version, disk, destDir, urls, fetchOk).disk;
      disk.Keys <= after.Keys <= disk.Keys + Dests(destDir, urls)
    decreases |urls|
  {
    if urls != [] {
      var n := |urls| - 1;
      PassKeys(version, disk, destDir, urls[..n], fetchOk);
      var before := DownloadSeq(version, disk, destDir, urls[..n], fetchOk);
      var t := Download(version, before.disk, destDir, urls[n], fetchOk(urls[n]));
      DownloadKeys(version, before.disk, destDir, urls[n], fetchOk(urls[n]));
      DestsSnoc(destDir, urls[..n], urls[n]);
      FrontAndLast(urls);
      KeysStep(disk.Keys, before.disk.Keys, t.disk.Keys, Dests(destDir, urls[..n]), DestFile(destDir, urls[n]));
    }
  }

  lemma KeysStep<T>(a: set<T>, b: set<T>, c: set<T>, dests: set<T>, dest: T)
    requires a <= b <= a + dests
    requires b <= c <= b + {dest}
    ensures a <= c <= a + (dests + {dest})
  {
  }

  /** Every task that did not fail leaves its file on disk, in either
      version. */
  lemma {:induction false} SettledTasksLeaveFiles(version: Version, disk: Disk, destDir: string, urls: seq<string>,
                                                  fetchOk: string -> bool, k: nat)
    requires k < |urls|
    ensures var s := DownloadSeq(version, disk, destDir, urls, fetchOk);
      s.statuses[k] != Failed ==> DestFile(destDir, urls[k]) in s.disk
    decreases |urls|
  {
    var n := |urls| - 1;
    var before := DownloadSeq(version, disk, destDir, urls[..n], fetchOk);
    if k < n {
      SettledTasksLeaveFiles(version, disk, destDir, urls[..n], fetchOk, k);
      EarlierStatusKept(version, disk, destDir, urls, fetchOk, k);
      DownloadKeys(version, before.disk, destDir, urls[n], fetchOk(urls[n]));
    } else {
      DownloadFacts(version, before.disk, destDir, urls[n], fetchOk(urls[n]));
    }
  }

  /** A URL's status and destination are those it had in the pass before a
      later URL was added. */
  lemma EarlierStatusKept(version: Version, disk: Disk, destDir: string, urls: seq<string>, fetchOk: string -> bool, k: nat)
    requires k < |urls| - 1
    ensures var n := |urls| - 1;
      && DownloadSeq(version, disk, destDir, urls, fetchOk).statuses[k]
           == DownloadSeq(version, disk, destDir, urls[..n], fetchOk).statuses[k]
      && urls[..n][k] == urls[k]
  {
    var n := |urls| - 1;
    var before := DownloadSeq(version, disk, destDir, urls[..n], fetchOk);
    var t := Download(version, before.disk, destDir, urls[n], fetchOk(urls[n]));
    assert (before.statuses + [t.status])[k] == before.statuses[k];
  }

  /** Every status of the list is Skipped. */
  predicate AllSkipped(statuses: seq<Status>)
  {
    forall k :: 0 <= k < |statuses| ==> statuses[k] == Skipped
  }

  /** A pass over files that are all present reports every URL as skipped, in
      either version; the corrected one also fetches nothing and changes
      nothing. */
  lemma {:induction false} AllPresentAllSkipped(version: Version, disk: Disk, destDir: string, urls: seq<string>,
                                                fetchOk: string -> bool)
    requires forall k :: 0 <= k < |urls| ==> DestFile(destDir, urls[k]) in disk
    ensures var s := DownloadSeq(version, disk, destDir, urls, fetchOk);
      && AllSkipped(s.statuses)
      && (version == Corrected ==> s.disk == disk && s.fetched == [])
    decreases |urls|
  {
    if urls != [] {
      var n := |urls| - 1;
      assert forall k :: 0 <= k < n ==> urls[..n][k] == urls[k];
      AllPresentAllSkipped(version, disk, destDir, urls[..n], fetchOk);
      PassKeys(version, disk, destDir, urls[..n], fetchOk);
      var before := DownloadSeq(version, disk, destDir, urls[..n], fetchOk);
      DownloadFacts(version, before.disk, destDir, urls[n], fetchOk(urls[n]));
    }
  }

  /** Corrected: after a pass in which no task failed, the same pass skips
      every URL, fetches nothing and leaves the disk as it is. */
  lemma RerunSkipsEverything(disk: Disk, destDir: string, urls: seq<string>, firstOk: string -> bool, laterOk: string -> bool)
    requires forall k :: 0 <= k < |urls| ==> DownloadSeq(Corrected, disk, destDir, urls, firstOk).statuses[k] != Failed
    ensures var first := DownloadSeq(Corrected, disk, destDir, urls, firstOk);
      var second := DownloadSeq(Corrected, first.disk, destDir, urls, laterOk);
      second.disk == first.disk && second.fetched == [] && AllSkipped(second.statuses)
  {
    var first := DownloadSeq(Corrected, disk, destDir, urls, firstOk);
    forall k | 0 <= k < |urls| ensures DestFile(destDir, urls[k]) in first.disk {
      SettledTasksLeaveFiles(Corrected, disk, destDir, urls, firstOk, k);
    }
    AllPresentAllSkipped(Corrected, first.disk, destDir, urls, laterOk);
  }

  /** Corrected: the disk only grows. `after` keeps every file of `before` as
      it was, and its other files are complete backups at paths in `dests`. */
  predicate Grows(before: Disk, after: Disk, dests: set<string>)
  {
    && (forall p :: p in before ==> p in after && after[p] == before[p])
    && (forall p :: p in after && p !in before ==> after[p] == Complete)
    && after.Keys <= before.Keys + dests
  }

  lemma GrowsTrans(d0: Disk, d1: Disk, d2: Disk, dests1: set<string>, dests2: set<string>)
    requires Grows(d0, d1, dests1) && Grows(d1, d2, dests2)
    ensures Grows(d0, d2, dests1 + dests2)
  {
  }

  /** Corrected: one task grows the disk by at most its own destination. */
  lemma DownloadFileGrows(disk: Disk, destDir: string, url: string, fetchOk: bool)
    ensures Grows(disk, DownloadFile(disk, destDir, url, fetchOk).disk, {DestFile(destDir, url)})
  {
  }

  /** Corrected: a pass never removes or rewrites a file that was there, and
      only adds complete files at the destinations of its URLs. */
  lemma {:induction false} DownloadSeqFrame(disk: Disk, destDir: string, urls: seq<string>, fetchOk: string -> bool)
    ensures Grows(disk, DownloadSeq(Corrected, disk, destDir, urls, fetchOk).disk, Dests(destDir, urls))
    decreases |urls|
  {
    if urls == [] {
      assert DownloadSeq(Corrected, disk, destDir, urls, fetchOk).disk == disk;
    } else {
      var n := |urls| - 1;
      var before := DownloadSeq(Corrected, disk, destDir, urls[..n], fetchOk);
      DownloadSeqFrame(disk, destDir, urls[..n], fetchOk);
      DownloadFileGrows(before.disk, destDir, urls[n], fetchOk(urls[n]));
      GrowsTrans(disk, before.disk, DownloadSeq(Corrected, disk, destDir, urls, fetchOk).disk,
                 Dests(destDir, urls[..n]), {DestFile(destDir, urls[n])});
      DestsSnoc(destDir, urls[..n], urls[n]);
      FrontAndLast(urls);
    }
  }

  /** As written: what a pass writes. Every destination is written, and holds
      the outcome of the last transfer to it. */
  function Writes(destDir: string, urls: seq<string>, fetchOk: string -> bool): map<string, FileState>
    decreases |urls|
  {
    if urls == [] then map[]
    else
      var n := |urls| - 1;
      Writes(destDir, urls[..n], fetchOk)[DestFile(destDir, urls[n]) := if fetchOk(urls[n]) then Complete else Partial]
  }

  /** As written, a pass writes exactly the destinations of its URLs. */
  lemma {:induction false} WritesKeys(destDir: string, urls: seq<string>, fetchOk: string -> bool)
    ensures Writes(destDir, urls, fetchOk).Keys == Dests(destDir, urls)
    decreases |urls|
  {
    if urls == [] {
      assert Dests(destDir, urls) == {};
    } else {
      var n := |urls| - 1;
      WritesKeys(destDir, urls[..n], fetchOk);
      DestsSnoc(destDir, urls[..n], urls[n]);
      FrontAndLast(urls);
    }
  }

  lemma MergeUpdate<K, V>(m: map<K, V>, w: map<K, V>, k: K, v: V)
    ensures (m + w)[k := v] == m + w[k := v]
  {
  }

  /** As written, the disk after a pass is the disk before it overwritten by
      Writes: every destination is rewritten, whatever it held, and nothing
      else changes. */
  lemma {:induction false} AsWrittenPassDisk(disk: Disk, destDir: string, urls: seq<string>, fetchOk: string -> bool)
    ensures DownloadSeq(AsWritten, disk, destDir, urls, fetchOk).disk == disk + Writes(destDir, urls, fetchOk)
    decreases |urls|
  {
    if urls == [] {
      assert disk + map[] == disk;
    } else {
      var n := |urls| - 1;
      AsWrittenPassDisk(disk, destDir, urls[..n], fetchOk);
      MergeUpdate(disk, Writes(destDir, urls[..n], fetchOk), DestFile(destDir, urls[n]),
                  if fetchOk(urls[n]) then Complete else Partial);
    }
  }

  /** As written, every URL of a pass is fetched, in queue order. */
  lemma {:induction false} AsWrittenFetchesEverything(disk: Disk, destDir: string, urls: seq<string>, fetchOk: string -> bool)
    ensures DownloadSeq(AsWritten, disk, destDir, urls, fetchOk).fetched == urls
    decreases |urls|
  {
    if urls != [] {
      var n := |urls| - 1;
      AsWrittenFetchesEverything(disk, destDir, urls[..n], fetchOk);
      FrontAndLast(urls);
    }
  }

  /** As written, every destination of a pass is on disk afterwards, failed
      transfers included. */
  lemma AsWrittenLeavesEveryFile(disk: Disk, destDir: string, urls: seq<string>, fetchOk: string -> bool)
    ensures forall k :: 0 <= k < |urls| ==> DestFile(destDir, urls[k]) in DownloadSeq(AsWritten, disk, destDir, urls, fetchOk).disk
  {
    AsWrittenPassDisk(disk, destDir, urls, fetchOk);
    WritesKeys(destDir, urls, fetchOk);
    forall k | 0 <= k < |urls| ensures DestFile(destDir, urls[k]) in Dests(destDir, urls) {
      assert urls[k] in urls;
    }
  }

  /** As written, the same pass run again against the same network reports
      every URL as skipped, yet sends every GET again and rewrites every
      file; each ends up as it was. */
  lemma AsWrittenRerun(disk: Disk, destDir: string, urls: seq<string>, fetchOk: string -> bool)
    ensures var first := DownloadSeq(AsWritten, disk, destDir, urls, fetchOk);
      var second := DownloadSeq(AsWritten, first.disk, destDir, urls, fetchOk);
      && second.disk == first.disk && second.fetched == urls && AllSkipped(second.statuses)
  {
    var first := DownloadSeq(AsWritten, disk, destDir, urls, fetchOk);
    var w := Writes(destDir, urls, fetchOk);
    AsWrittenPassDisk(disk, destDir, urls, fetchOk);
    AsWrittenPassDisk(first.disk, destDir, urls, fetchOk);
    assert first.disk + w == first.disk;
    AsWrittenLeavesEveryFile(disk, destDir, urls, fetchOk);
    AllPresentAllSkipped(AsWritten, first.disk, destDir, urls, fetchOk);
    AsWrittenFetchesEverything(first.disk, destDir, urls, fetchOk);
  }

  /** No two of the URLs share a destination. */
  predicate DistinctDests(destDir: string, urls: seq<string>)
  {
    forall i, j :: 0 <= i < j < |urls| ==> DestFile(destDir, urls[i]) != DestFile(destDir, urls[j])
  }

  lemma DistinctDestsPrefix(destDir: string, urls: seq<string>)
    requires urls != [] && DistinctDests(destDir, urls)
    ensures DistinctDests(destDir, urls[..|urls| - 1])
  {
  }

  lemma LastDestIsNew(destDir: string, urls: seq<string>)
    requires urls != [] && DistinctDests(destDir, urls)
    ensures DestFile(destDir, urls[|urls| - 1]) !in Dests(destDir, urls[..|urls| - 1])
  {
    var n := |urls| - 1;
    var prefix := urls[..n];
    forall u | u in prefix ensures DestFile(destDir, u) != DestFile(destDir, urls[n]) {
      var k :| 0 <= k < n && prefix[k] == u;
    }
  }

  /** Each status, and the file at each destination, is what its task would
      give alone against `disk`; paths that are no destination are as in
      `disk`. */
  ghost predicate SettleAlone(version: Version, disk: Disk, destDir: string, urls: seq<string>, fetchOk: string -> bool,
                        statuses: seq<Status>, after: Disk)
  {
    && |statuses| == |urls|
    && (forall k :: 0 <= k < |urls| ==>
          statuses[k] == Download(version, disk, destDir, urls[k], fetchOk(urls[k])).status
          && SameAt(after, Download(version, disk, destDir, urls[k], fetchOk(urls[k])).disk, DestFile(destDir, urls[k])))
    && (forall p :: p !in Dests(destDir, urls) ==> SameAt(after, disk, p))
  }

  lemma SettleAloneSnoc(version: Version, disk: Disk, destDir: string, urls: seq<string>, fetchOk: string -> bool,
                        statuses: seq<Status>, before: Disk, t: Task)
    requires urls != []
    requires SettleAlone(version, disk, destDir, urls[..|urls| - 1], fetchOk, statuses, before)
    requires DestFile(destDir, urls[|urls| - 1]) !in Dests(destDir, urls[..|urls| - 1])
    requires t == Download(version, before, destDir, urls[|urls| - 1], fetchOk(urls[|urls| - 1]))
    ensures SettleAlone(version, disk, destDir, urls, fetchOk, statuses + [t.status], t.disk)
  {
    var n := |urls| - 1;
    var ss := statuses + [t.status];
    forall k | 0 <= k < |urls|
      ensures ss[k] == Download(version, disk, destDir, urls[k], fetchOk(urls[k])).status
      ensures SameAt(t.disk, Download(version, disk, destDir, urls[k], fetchOk(urls[k])).disk, DestFile(destDir, urls[k]))
    {
      var prefix := urls[..n];
      if k < n {
        assert prefix[k] == urls[k];
        assert urls[k] in prefix;
        SettleAloneSnocEarlier(version, disk, destDir, urls[k], urls[n], fetchOk, before, t);
      } else {
        SettleAloneSnocLast(version, disk, destDir, urls[n], fetchOk, before, t);
      }
    }
    forall p | p !in Dests(destDir, urls) ensures SameAt(t.disk, disk, p) {
      SettleAloneSnocElsewhere(version, disk, destDir, urls, fetchOk, statuses, before, t, p);
    }
  }

  /** SettleAloneSnoc at the destination of an earlier URL `u`: the new
      task leaves it alone. */
  lemma SettleAloneSnocEarlier(version: Version, disk: Disk, destDir: string, u: string, url: string,
                               fetchOk: string -> bool, before: Disk, t: Task)
    requires DestFile(destDir, u) != DestFile(destDir, url)
    requires SameAt(before, Download(version, disk, destDir, u, fetchOk(u)).disk, DestFile(destDir, u))
    requires t == Download(version, before, destDir, url, fetchOk(url))
    ensures SameAt(t.disk, Download(version, disk, destDir, u, fetchOk(u)).disk, DestFile(destDir, u))
  {
    DownloadLeavesOthers(version, before, destDir, url, fetchOk(url), DestFile(destDir, u));
  }

  /** SettleAloneSnoc at the destination of the new URL, which the pass so
      far left as it was. */
  lemma SettleAloneSnocLast(version: Version, disk: Disk, destDir: string, url: string,
                            fetchOk: string -> bool, before: Disk, t: Task)
    requires SameAt(before, disk, DestFile(destDir, url))
    requires t == Download(version, before, destDir, url, fetchOk(url))
    ensures t.status == Download(version, disk, destDir, url, fetchOk(url)).status
    ensures SameAt(t.disk, Download(version, disk, destDir, url, fetchOk(url)).disk, DestFile(destDir, url))
  {
    DownloadDependsOnDest(version, before, disk, destDir, url, fetchOk(url));
  }

  /** SettleAloneSnoc away from every destination. */
  lemma SettleAloneSnocElsewhere(version: Version, disk: Disk, destDir: string, urls: seq<string>, fetchOk: string -> bool,
                                 statuses: seq<Status>, before: Disk, t: Task, p: string)
    requires urls != []
    requires SettleAlone(version, disk, destDir, urls[..|urls| - 1], fetchOk, statuses, before)
    requires t == Download(version, before, destDir, urls[|urls| - 1], fetchOk(urls[|urls| - 1]))
    requires p !in Dests(destDir, urls)
    ensures SameAt(t.disk, disk, p)
  {
    var n := |urls| - 1;
    DestsSnoc(destDir, urls[..n], urls[n]);
    FrontAndLast(urls);
    DownloadLeavesOthers(version, before, destDir, urls[n], fetchOk(urls[n]), p);
  }

  /** Tasks with distinct destinations do not see each other: each settles,
      and leaves its destination, as it would alone against the disk as it
      was before the pass, and nothing else on disk changes. This is what
      lets the concurrent fan-out be modelled one task after another. */
  lemma {:induction false} TasksAreIndependent(version: Version, disk: Disk, destDir: string, urls: seq<string>,
                                               fetchOk: string -> bool)
    requires DistinctDests(destDir, urls)
    ensures var s := DownloadSeq(version, disk, destDir, urls, fetchOk);
      SettleAlone(version, disk, destDir, urls, fetchOk, s.statuses, s.disk)
    decreases |urls|
  {
    if urls == [] {
      assert forall p :: SameAt(disk, disk, p);
    } else {
      var n := |urls| - 1;
      DistinctDestsPrefix(destDir, urls);
      LastDestIsNew(destDir, urls);
      TasksAreIndependent(version, disk, destDir, urls[..n], fetchOk);
      var before := DownloadSeq(version, disk, destDir, urls[..n], fetchOk);
      SettleAloneSnoc(version, disk, destDir, urls, fetchOk, before.statuses, before.disk,
                      Download(version, before.disk, destDir, urls[n], fetchOk(urls[n])));
    }
  }

  /** Onto a disk that holds none of them, a pass whose transfers all succeed
      writes a complete file for every URL, in either version. */
  lemma FreshPassWritesEveryFile(version: Version, disk: Disk, destDir: string, urls: seq<string>, fetchOk: string -> bool)
    requires forall k :: 0 <= k < |urls| ==> DestFile(destDir, urls[k]) !in disk && fetchOk(urls[k])
    requires DistinctDests(destDir, urls)
    ensures var s := DownloadSeq(version, disk, destDir, urls, fetchOk);
      forall k :: 0 <= k < |urls| ==>
        s.statuses[k] == Completed && DestFile(destDir, urls[k]) in s.disk && s.disk[DestFile(destDir, urls[k])] == Complete
  {
    var s := DownloadSeq(version, disk, destDir, urls, fetchOk);
    TasksAreIndependent(version, disk, destDir, urls, fetchOk);
    forall k | 0 <= k < |urls|
      ensures s.statuses[k] == Completed && DestFile(destDir, urls[k]) in s.disk && s.disk[DestFile(destDir, urls[k])] == Complete
    {
      DownloadFacts(version, disk, destDir, urls[k], fetchOk(urls[k]));
    }
  }

  /** On the same inputs, with distinct destinations, a pass adds exactly one
      file per URL, in either version. */
  lemma {:induction false} FreshPassFileCount(version: Version, disk: Disk, destDir: string, urls: seq<string>,
                                              fetchOk: string -> bool)
    requires forall k :: 0 <= k < |urls| ==> DestFile(destDir, urls[k]) !in disk && fetchOk(urls[k])
    requires DistinctDests(destDir, urls)
    ensures |DownloadSeq(version, disk, destDir, urls, fetchOk).disk| == |disk| + |urls|
    decreases |urls|
  {
    if urls != [] {
      var n := |urls| - 1;
      var prefix, url := urls[..n], urls[n];
      DistinctDestsPrefix(destDir, urls);
      LastDestIsNew(destDir, urls);
      assert forall k :: 0 <= k < n ==> prefix[k] == urls[k];
      FreshPassFileCount(version, disk, destDir, prefix, fetchOk);
      PassKeys(version, disk, destDir, prefix, fetchOk);
      var before := DownloadSeq(version, disk, destDir, prefix, fetchOk);
      assert DestFile(destDir, url) !in before.disk;
      DownloadFacts(version, before.disk, destDir, url, fetchOk(url));
    }
  }

  /** Distinct file names give distinct destinations. */
  lemma DistinctNamesDistinctDests(destDir: string, urls: seq<string>)
    requires forall i, j :: 0 <= i < j < |urls| ==> FileName(urls[i]) != FileName(urls[j])
    ensures DistinctDests(destDir, urls)
  {
    forall i, j | 0 <= i < j < |urls| ensures DestFile(destDir, urls[i]) != DestFile(destDir, urls[j]) {
      DestFileCollision(destDir, urls[i], urls[j]);
    }
  }
}
