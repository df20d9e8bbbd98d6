/** When the worker syncs the graph of a document's workspace. */
module WorkerSync {
  import opened OrderedDict
  import opened TaskWorker
  import opened WorkerRuns

  /** Extraction jobs as the importers create them: target and input name the same, known document. */
  ghost predicate Aligned(jobs: seq<TaskJob>, docs: map<string, Document>) {
    forall k :: 0 <= k < |jobs| && IsExtraction(jobs[k].jobType) ==>
      jobs[k].documentId.Some? && jobs[k].targetId == jobs[k].documentId && jobs[k].documentId.value in docs
  }

  /** At place `m` of the log an extraction job of `doc` was run. */
  ghost predicate ExtractedAt(w: World, doc: string, m: nat) {
    && m < |w.log| && w.log[m].Ran? && w.log[m].job < |w.jobs|
    && IsExtraction(w.jobs[w.log[m].job].jobType) && w.jobs[w.log[m].job].documentId == Some(doc)
  }

  ghost predicate LastExtractedAt(w: World, doc: string, m: nat) {
    ExtractedAt(w, doc, m) && forall n :: m < n < |w.log| ==> !ExtractedAt(w, doc, n)
  }

  ghost predicate SyncTried(w: World, doc: string, n: nat) {
    doc in w.docs && n < |w.log| && w.log[n].Synced? && w.log[n].workspace == w.docs[doc].workspace
  }

  ghost predicate SyncTriedAfter(w: World, doc: string, m: nat) { exists n :: m < n && SyncTried(w, doc, n) }

  /** After place `m` a sync of the document's workspace went through. */
  ghost predicate SyncedAfter(w: World, doc: string, m: nat) {
    exists n :: m < n && SyncTried(w, doc, n) && w.log[n].done
  }

  /** If the last extraction job that ran for `doc` succeeded and none is pending, a graph sync was tried after it,
      hence after everything any extraction job of the document wrote. */
  ghost predicate Fresh(w: World, doc: string) {
    forall m: nat :: LastExtractedAt(w, doc, m) && w.jobs[w.log[m].job].status == Succeeded
        && !HasPendingExtraction(w.jobs, doc)
      ==> SyncTriedAfter(w, doc, m)
  }

  ghost predicate SyncInv(w: World) {
    && Aligned(w.jobs, w.docs)
    && (forall m :: 0 <= m < |w.log| && w.log[m].Ran? ==> w.log[m].job < |w.jobs|)
    && (forall doc :: doc in w.docs ==> Fresh(w, doc))
  }

  ghost predicate RunsExtraction(config: Config) {
    config.hasStore && ENTITY_EXTRACTION in config.handled && RELATION_EXTRACTION in config.handled
  }

  /** What one processed extraction job adds to the log: its run and, when it succeeded and was the document's last
      pending one, a sync of the document's workspace. So a last job that fails, or whose sync fails, leaves the graph
      without the document's extractions: a failing sync is not tried again. */
  lemma SyncAfterLastSuccess(w: World, i: nat, outcome: Outcome, config: Config)
    requires i < |w.jobs| && Aligned(w.jobs, w.docs) && RunsExtraction(config) && IsExtraction(w.jobs[i].jobType)
    ensures var w1 := Process(w, i, outcome, config);
            var doc := w.jobs[i].documentId.value;
            var due := outcome.Success? && !HasPendingExtraction(w1.jobs, doc);
            var synced := if due then [Synced(w.docs[doc].workspace, outcome.syncs)] else [];
            && w1.log == w.log + [Ran(i)] + synced
            && (!HasPendingExtraction(w1.jobs, doc) ==> (SyncedAfter(w1, doc, |w.log|) <==> outcome == Success(true)))
  {
    var w1, doc := Process(w, i, outcome, config), w.jobs[i].documentId.value;
    if outcome.Success? && !HasPendingExtraction(w1.jobs, doc) { assert SyncTried(w1, doc, |w.log| + 1); }
  }

  /** Other jobs leave the jobs' documents alone and add no extraction to the log. */
  lemma OtherJobsLog(w: World, i: nat, outcome: Outcome, config: Config)
    requires i < |w.jobs|
    ensures var w1 := Process(w, i, outcome, config);
            && |w.log| <= |w1.log| && w1.log[..|w.log|] == w.log
            && (forall m :: |w.log| <= m < |w1.log| ==> w1.log[m] == Ran(i) || w1.log[m].Synced?)
            && w1.docs.Keys == w.docs.Keys && (forall d :: d in w.docs ==> w1.docs[d].workspace == w.docs[d].workspace)
  {
  }

  lemma ExtractionUnchanged(w: World, w1: World, i: nat, doc: string)
    requires i < |w.jobs| == |w1.jobs| && forall k :: 0 <= k < |w.jobs| && k != i ==> w1.jobs[k] == w.jobs[k]
    requires SameIdentity(w1.jobs[i], w.jobs[i])
    requires |w.log| <= |w1.log| && w1.log[..|w.log|] == w.log
    requires forall m :: |w.log| <= m < |w1.log| ==> w1.log[m] == Ran(i) || w1.log[m].Synced?
    ensures forall m :: 0 <= m < |w.log| ==>
              (ExtractedAt(w1, doc, m) <==> ExtractedAt(w, doc, m)) && w1.log[m] == w.log[m]
  {
    forall m | 0 <= m < |w.log| ensures (ExtractedAt(w1, doc, m) <==> ExtractedAt(w, doc, m)) && w1.log[m] == w.log[m] {
      assert w1.log[..|w.log|][m] == w.log[m];
    }
  }

  lemma StillPending(w: World, w1: World, i: nat, doc: string)
    requires i < |w.jobs| == |w1.jobs| && forall k :: 0 <= k < |w.jobs| && k != i ==> w1.jobs[k] == w.jobs[k]
    requires !IsExtraction(w.jobs[i].jobType) || w.jobs[i].targetId != Some(doc)
    ensures HasPendingExtraction(w.jobs, doc) ==> HasPendingExtraction(w1.jobs, doc)
  {
    if HasPendingExtraction(w.jobs, doc) {
      var k :| 0 <= k < |w.jobs| && w.jobs[k].targetId == Some(doc) && IsExtraction(w.jobs[k].jobType)
          && w.jobs[k].status == Pending;
      assert w1.jobs[k] == w.jobs[k];
    }
  }

  /** A job of another document, or no extraction job at all, keeps `doc` fresh. */
  lemma OtherJobKeepsFresh(w: World, i: nat, outcome: Outcome, config: Config, doc: string)
    requires i < |w.jobs| && SyncInv(w) && doc in w.docs
    requires !IsExtraction(w.jobs[i].jobType) || w.jobs[i].documentId != Some(doc)
    ensures Fresh(Process(w, i, outcome, config), doc)
  {
    var w1 := Process(w, i, outcome, config);
    ProcessTouchesOneJob(w, i, outcome, config);
    OtherJobsLog(w, i, outcome, config);
    ExtractionUnchanged(w, w1, i, doc);
    assert forall m :: |w.log| <= m < |w1.log| ==> !ExtractedAt(w1, doc, m);
    forall m: nat | LastExtractedAt(w1, doc, m) && w1.jobs[w1.log[m].job].status == Succeeded
        && !HasPendingExtraction(w1.jobs, doc)
      ensures SyncTriedAfter(w1, doc, m)
    {
      assert m < |w.log| && ExtractedAt(w, doc, m);
      forall n | m < n < |w.log| ensures !ExtractedAt(w, doc, n) { assert !ExtractedAt(w1, doc, n); }
      assert w.jobs[w.log[m].job] == w1.jobs[w.log[m].job];
      StillPending(w, w1, i, doc);
      assert Fresh(w, doc);
      var n :| m < n && SyncTried(w, doc, n);
      assert SyncTried(w1, doc, n);
    }
  }

  lemma OwnJobKeepsFresh(w: World, i: nat, outcome: Outcome, config: Config, doc: string)
    requires i < |w.jobs| && SyncInv(w) && doc in w.docs && RunsExtraction(config)
    requires IsExtraction(w.jobs[i].jobType) && w.jobs[i].documentId == Some(doc)
    ensures Fresh(Process(w, i, outcome, config), doc)
  {
    var w1 := Process(w, i, outcome, config);
    SyncAfterLastSuccess(w, i, outcome, config);
    ProcessTouchesOneJob(w, i, outcome, config);
    OtherJobsLog(w, i, outcome, config);
    assert w1.log[|w.log|] == Ran(i) && ExtractedAt(w1, doc, |w.log|);
    forall m: nat | LastExtractedAt(w1, doc, m) && w1.jobs[w1.log[m].job].status == Succeeded
        && !HasPendingExtraction(w1.jobs, doc)
      ensures SyncTriedAfter(w1, doc, m)
    {
      assert m >= |w.log|;
      assert SyncTried(w1, doc, |w1.log| - 1);
    }
  }

  lemma ProcessKeepsSyncInv(w: World, i: nat, outcome: Outcome, config: Config)
    requires i < |w.jobs| && SyncInv(w) && RunsExtraction(config)
    ensures SyncInv(Process(w, i, outcome, config))
  {
    var w1 := Process(w, i, outcome, config);
    ProcessTouchesOneJob(w, i, outcome, config);
    OtherJobsLog(w, i, outcome, config);
    forall m | 0 <= m < |w1.log| && w1.log[m].Ran? ensures w1.log[m].job < |w1.jobs| {
      if m < |w.log| { assert w1.log[..|w.log|][m] == w.log[m]; }
    }
    forall doc | doc in w1.docs ensures Fresh(w1, doc) {
      if IsExtraction(w.jobs[i].jobType) && w.jobs[i].documentId == Some(doc) {
        OwnJobKeepsFresh(w, i, outcome, config, doc);
      } else {
        OtherJobKeepsFresh(w, i, outcome, config, doc);
      }
    }
  }

  lemma {:induction false} ProcessAllKeepsSyncInv(w: World, claimed: seq<nat>, oracle: nat -> Outcome, config: Config)
    requires forall k :: 0 <= k < |claimed| ==> claimed[k] < |w.jobs|
    requires SyncInv(w) && RunsExtraction(config)
    ensures SyncInv(ProcessAll(w, claimed, oracle, config))
  {
    if claimed != [] {
      var n := |claimed| - 1;
      ProcessAllKeepsSyncInv(w, claimed[..n], oracle, config);
      ProcessKeepsSyncInv(ProcessAll(w, claimed[..n], oracle, config), claimed[n], oracle(claimed[n]), config);
    }
  }

  ghost predicate GoodArrivals(arrivals: seq<TaskJob>, docs: map<string, Document>) {
    Aligned(arrivals, docs) && forall k :: 0 <= k < |arrivals| ==> arrivals[k].status == Pending
  }

  lemma ArrivalKeepsSyncInv(w: World, arrivals: seq<TaskJob>)
    requires SyncInv(w) && GoodArrivals(arrivals, w.docs)
    ensures SyncInv(Arrive(w, arrivals))
  {
    var w1 := Arrive(w, arrivals);
    forall doc | doc in w.docs ensures Fresh(w1, doc) {
      forall m: nat | LastExtractedAt(w1, doc, m) && w1.jobs[w1.log[m].job].status == Succeeded
          && !HasPendingExtraction(w1.jobs, doc)
        ensures SyncTriedAfter(w1, doc, m)
      {
        assert ExtractedAt(w, doc, m);
        forall n | m < n < |w.log| ensures !ExtractedAt(w, doc, n) { assert !ExtractedAt(w1, doc, n); }
        forall k | 0 <= k < |w.jobs| && w.jobs[k].targetId == Some(doc) && IsExtraction(w.jobs[k].jobType)
          ensures w.jobs[k].status != Pending
        {
          assert w1.jobs[k] == w.jobs[k];
        }
        assert Fresh(w, doc);
        var n :| m < n && SyncTried(w, doc, n);
        assert SyncTried(w1, doc, n);
      }
    }
  }

  lemma {:induction false} ProcessAllKeepsDocs(w: World, claimed: seq<nat>, oracle: nat -> Outcome, config: Config)
    requires forall k :: 0 <= k < |claimed| ==> claimed[k] < |w.jobs|
    ensures ProcessAll(w, claimed, oracle, config).docs.Keys == w.docs.Keys
  {
    if claimed != [] {
      var n := |claimed| - 1;
      ProcessAllKeepsDocs(w, claimed[..n], oracle, config);
      OtherJobsLog(ProcessAll(w, claimed[..n], oracle, config), claimed[n], oracle(claimed[n]), config);
    }
  }

  /** In every run of the worker, whatever arrives and however handlers end, every document stays fresh. */
  lemma {:induction false} RunKeepsGraphFresh(w: World, turns: seq<Turn>, batch: nat, config: Config)
    requires SyncInv(w) && RunsExtraction(config)
    requires forall t :: 0 <= t < |turns| ==> GoodArrivals(turns[t].arrivals, w.docs)
    ensures SyncInv(Run(w, turns, batch, config))
    decreases |turns|
  {
    if turns != [] {
      var w0 := Arrive(w, turns[0].arrivals);
      ArrivalKeepsSyncInv(w, turns[0].arrivals);
      ClaimedAre(w0.jobs, 0, batch);
      ProcessAllKeepsSyncInv(w0, Claim(w0.jobs, batch), turns[0].oracle, config);
      ProcessAllKeepsDocs(w0, Claim(w0.jobs, batch), turns[0].oracle, config);
      var w1 := Tick(w0, batch, turns[0].oracle, config);
      forall t | 0 <= t < |turns| - 1 ensures GoodArrivals(turns[1..][t].arrivals, w1.docs) {
        assert turns[1..][t] == turns[t + 1];
      }
      RunKeepsGraphFresh(w1, turns[1..], batch, config);
    }
  }
}
