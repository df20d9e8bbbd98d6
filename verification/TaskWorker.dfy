/** The background worker: job states, oldest-first batches, deferral, and the graph sync after extraction. */
module TaskWorker {
  import opened OrderedDict

  datatype Status = Pending | Running | Succeeded | Failed

  const ENTITY_EXTRACTION := "entity_extraction"
  const RELATION_EXTRACTION := "relation_extraction"
  const EXTERNAL_JOB_TYPES := {"x_web_collect"}

  datatype TaskJob = TaskJob(jobType: string, targetId: Option<string>, documentId: Option<string>, status: Status,
                             progress: int, error: Option<string>)

  datatype Document = Document(workspace: string, entityStatus: string, relationStatus: string)

  /** A handler was run for a job, or a sync of a workspace's graph was tried; a failing one is only logged. */
  datatype Event = Ran(job: nat) | Synced(workspace: string, done: bool)

  /** `jobs` is the table in order of creation: a job is named by its place. */
  datatype World = World(jobs: seq<TaskJob>, docs: map<string, Document>, log: seq<Event>)

  /** What a handler call comes to; after a success, whether a graph sync would go through. */
  datatype Outcome = Success(syncs: bool) | Defer(progress: int) | Raise(message: string)

  /** The registered handlers, and whether a graph store is configured. */
  datatype Config = Config(handled: set<string>, hasStore: bool)

  predicate IsExtraction(jobType: string) { jobType == ENTITY_EXTRACTION || jobType == RELATION_EXTRACTION }

  function WithDocStatus(docs: map<string, Document>, job: TaskJob, value: string): map<string, Document> {
    if job.documentId.None? || job.documentId.value !in docs then docs
    else
      var id := job.documentId.value;
      if job.jobType == ENTITY_EXTRACTION then docs[id := docs[id].(entityStatus := value)]
      else if job.jobType == RELATION_EXTRACTION then docs[id := docs[id].(relationStatus := value)]
      else docs
  }

  /** `_has_pending_extraction_jobs`: it goes by the job's target, not by its input. */
  predicate HasPendingExtraction(jobs: seq<TaskJob>, doc: string) {
    exists k :: 0 <= k < |jobs| && jobs[k].targetId == Some(doc) && IsExtraction(jobs[k].jobType)
        && jobs[k].status == Pending
  }

  function SetJob(w: World, i: nat, job: TaskJob): World
    requires i < |w.jobs|
  {
    w.(jobs := w.jobs[i := job])
  }

  function MarkedRunning(w: World, i: nat): World
    requires i < |w.jobs|
  {
    SetJob(w, i, w.jobs[i].(status := Running))
  }

  function MarkedSucceeded(w: World, i: nat): World
    requires i < |w.jobs|
  {
    SetJob(w, i, w.jobs[i].(status := Succeeded, progress := 100))
  }

  function MarkedFailed(w: World, i: nat, message: string): World
    requires i < |w.jobs|
  {
    var failed := SetJob(w, i, w.jobs[i].(status := Failed, error := Some(message)));
    failed.(docs := WithDocStatus(w.docs, w.jobs[i], "failed"))
  }

  function MarkedDeferred(w: World, i: nat, progress: int): World
    requires i < |w.jobs|
  {
    SetJob(w, i, w.jobs[i].(status := Pending, progress := progress))
  }

  /** Document bookkeeping after a success, and the sync once no extraction job of the document is pending. */
  function AfterExtraction(w: World, i: nat, syncs: bool, config: Config): World
    requires i < |w.jobs|
  {
    var job := w.jobs[i];
    if job.documentId.None? || job.documentId.value !in w.docs then w
    else
      var doc := job.documentId.value;
      var w1 := w.(docs := WithDocStatus(w.docs, job, "completed"));
      if HasPendingExtraction(w1.jobs, doc) || !config.hasStore then w1
      else w1.(log := w1.log + [Synced(w1.docs[doc].workspace, syncs)])
  }

  function Handled(w: World, i: nat, outcome: Outcome, config: Config): World
    requires i < |w.jobs|
  {
    match outcome
    case Defer(progress) => MarkedDeferred(w, i, progress)
    case Raise(message) => MarkedFailed(w, i, message)
    case Success(syncs) => AfterExtraction(MarkedSucceeded(w, i), i, syncs, config)
  }

  function NoHandler(jobType: string): string { "no handler for job_type '" + jobType + "'" }

  function Process(w: World, i: nat, outcome: Outcome, config: Config): World
    requires i < |w.jobs|
  {
    if w.jobs[i].jobType !in config.handled then
      if w.jobs[i].jobType in EXTERNAL_JOB_TYPES then w else MarkedFailed(w, i, NoHandler(w.jobs[i].jobType))
    else
      var started := MarkedRunning(w, i);
      Handled(started.(log := started.log + [Ran(i)]), i, outcome, config)
  }

  /** The oldest pending jobs from place `from` on, at most `batch` of them. */
  function ClaimFrom(jobs: seq<TaskJob>, from: nat, batch: nat): seq<nat>
    requires from <= |jobs|
    decreases |jobs| - from
  {
    if from == |jobs| || batch == 0 then []
    else if jobs[from].status == Pending then [from] + ClaimFrom(jobs, from + 1, batch - 1)
    else ClaimFrom(jobs, from + 1, batch)
  }

  function Claim(jobs: seq<TaskJob>, batch: nat): seq<nat> { ClaimFrom(jobs, 0, batch) }

  function ProcessAll(w: World, claimed: seq<nat>, oracle: nat -> Outcome, config: Config): (r: World)
    requires forall k :: 0 <= k < |claimed| ==> claimed[k] < |w.jobs|
    ensures |r.jobs| == |w.jobs|
  {
    if claimed == [] then w
    else
      var n := |claimed| - 1;
      Process(ProcessAll(w, claimed[..n], oracle, config), claimed[n], oracle(claimed[n]), config)
  }

  /** `c` are pending jobs from place `from` on, in order, at most `batch`; and if it leaves a pending one out it is
      a full batch of older ones. */
  ghost predicate OldestPending(jobs: seq<TaskJob>, from: nat, batch: nat, c: seq<nat>) {
    && |c| <= batch
    && (forall k :: 0 <= k < |c| ==> from <= c[k] < |jobs| && jobs[c[k]].status == Pending)
    && (forall k, l :: 0 <= k < l < |c| ==> c[k] < c[l])
    && (forall i :: from <= i < |jobs| && jobs[i].status == Pending && i !in c
          ==> |c| == batch && forall k :: 0 <= k < |c| ==> c[k] < i)
  }

  lemma {:induction false} ClaimedAre(jobs: seq<TaskJob>, from: nat, batch: nat)
    requires from <= |jobs|
    ensures OldestPending(jobs, from, batch, ClaimFrom(jobs, from, batch))
    decreases |jobs| - from
  {
    if from == |jobs| || batch == 0 {
    } else if jobs[from].status == Pending {
      ClaimedAre(jobs, from + 1, batch - 1);
      ClaimsOneMore(jobs, from, ClaimFrom(jobs, from + 1, batch - 1), batch, ClaimFrom(jobs, from, batch));
    } else {
      ClaimedAre(jobs, from + 1, batch);
    }
  }

  lemma ClaimsOneMore(jobs: seq<TaskJob>, from: nat, rest: seq<nat>, batch: nat, c: seq<nat>)
    requires from < |jobs| && jobs[from].status == Pending && batch > 0 && c == [from] + rest
    requires OldestPending(jobs, from + 1, batch - 1, rest)
    ensures OldestPending(jobs, from, batch, c)
  {
    forall i | from <= i < |jobs| && jobs[i].status == Pending && i !in c
      ensures |c| == batch && forall k :: 0 <= k < |c| ==> c[k] < i
    {
      assert c[0] == from && i != from && i !in rest;
    }
  }

  lemma ClaimedExist(jobs: seq<TaskJob>, batch: nat)
    ensures forall k :: 0 <= k < |Claim(jobs, batch)| ==> Claim(jobs, batch)[k] < |jobs|
  {
    ClaimedAre(jobs, 0, batch);
  }

  lemma ProcessAllNext(w: World, claimed: seq<nat>, n: nat, oracle: nat -> Outcome, config: Config)
    requires n < |claimed| && forall k :: 0 <= k < |claimed| ==> claimed[k] < |w.jobs|
    ensures ProcessAll(w, claimed[..n + 1], oracle, config)
            == Process(ProcessAll(w, claimed[..n], oracle, config), claimed[n], oracle(claimed[n]), config)
  {
    assert claimed[..n + 1][..n] == claimed[..n];
  }

  /** One turn of the worker. `oracle` says how the handler of each job would end. */
  function Tick(w: World, batch: nat, oracle: nat -> Outcome, config: Config): (r: World)
    ensures |r.jobs| == |w.jobs|
  {
    ClaimedExist(w.jobs, batch);
    ProcessAll(w, Claim(w.jobs, batch), oracle, config)
  }

  // ----- what the worker does, in plain terms -----

  /** An extraction job of the document is waiting. */
  ghost predicate Waiting(jobs: seq<TaskJob>, doc: string) {
    exists k :: 0 <= k < |jobs| && jobs[k].targetId == Some(doc) && jobs[k].status == Pending
        && (jobs[k].jobType == "entity_extraction" || jobs[k].jobType == "relation_extraction")
  }

  ghost predicate JobBecomes(job: TaskJob, job1: TaskJob, status: Status, progress: int, error: Option<string>) {
    && job1.jobType == job.jobType && job1.targetId == job.targetId && job1.documentId == job.documentId
    && job1.status == status && job1.progress == progress && job1.error == error
  }

  ghost predicate OnlyJobBecomes(jobs: seq<TaskJob>, jobs1: seq<TaskJob>, i: nat, status: Status, progress: int,
                                 error: Option<string>)
    requires i < |jobs|
  {
    && |jobs1| == |jobs| && JobBecomes(jobs[i], jobs1[i], status, progress, error)
    && forall k :: 0 <= k < |jobs| && k != i ==> jobs1[k] == jobs[k]
  }

  /** The job's document says so in the field for its kind of extraction; nothing else about any document changes. */
  ghost predicate DocumentSays(w: World, w1: World, job: TaskJob, says: string) {
    && w1.docs.Keys == w.docs.Keys
    && forall d :: d in w.docs ==>
         && w1.docs[d].workspace == w.docs[d].workspace
         && w1.docs[d].entityStatus == (if job.documentId == Some(d) && job.jobType == "entity_extraction" then says
                                        else w.docs[d].entityStatus)
         && w1.docs[d].relationStatus == (if job.documentId == Some(d) && job.jobType == "relation_extraction" then says
                                          else w.docs[d].relationStatus)
  }

  ghost predicate Fails(w: World, w1: World, i: nat, message: string)
    requires i < |w.jobs| == |w1.jobs|
  {
    && JobBecomes(w.jobs[i], w1.jobs[i], Failed, w.jobs[i].progress, Some(message))
    && DocumentSays(w, w1, w.jobs[i], "failed")
  }

  /** After a success a sync is due if the document is known, a store is configured, and no extraction job of the
      document is waiting. */
  ghost predicate SyncDue(w1: World, job: TaskJob, config: Config) {
    config.hasStore && job.documentId.Some? && job.documentId.value in w1.docs
        && !Waiting(w1.jobs, job.documentId.value)
  }

  ghost predicate Succeeds(w: World, w1: World, i: nat, syncs: bool, config: Config)
    requires i < |w.jobs| == |w1.jobs|
  {
    && JobBecomes(w.jobs[i], w1.jobs[i], Succeeded, 100, w.jobs[i].error)
    && DocumentSays(w, w1, w.jobs[i], "completed")
    && w1.log == w.log + [Ran(i)]
                 + if SyncDue(w1, w.jobs[i], config) then [Synced(w1.docs[w.jobs[i].documentId.value].workspace, syncs)]
                   else []
  }

  /** A job without a handler fails, unless an external collector takes it; any other is run and ends as its handler
      does. No other job changes. */
  ghost predicate PlainlyProcessed(w: World, w1: World, i: nat, outcome: Outcome, config: Config)
    requires i < |w.jobs|
  {
    && |w1.jobs| == |w.jobs| && (forall k :: 0 <= k < |w.jobs| && k != i ==> w1.jobs[k] == w.jobs[k])
    && if w.jobs[i].jobType !in config.handled then
         if w.jobs[i].jobType == "x_web_collect" then w1 == w
         else Fails(w, w1, i, "no handler for job_type '" + w.jobs[i].jobType + "'") && w1.log == w.log
       else match outcome
         case Success(syncs) => Succeeds(w, w1, i, syncs, config)
         case Raise(message) => Fails(w, w1, i, message) && w1.log == w.log + [Ran(i)]
         case Defer(progress) =>
           && JobBecomes(w.jobs[i], w1.jobs[i], Pending, progress, w.jobs[i].error)
           && w1.docs == w.docs && w1.log == w.log + [Ran(i)]
  }

  lemma WaitingIff(jobs: seq<TaskJob>, doc: string)
    ensures HasPendingExtraction(jobs, doc) <==> Waiting(jobs, doc)
  {
  }

  lemma SyncIsDue(w: World, i: nat, syncs: bool, config: Config)
    requires i < |w.jobs|
    ensures var w1 := AfterExtraction(w, i, syncs, config);
            && w1.jobs == w.jobs && DocumentSays(w, w1, w.jobs[i], "completed")
            && w1.log == w.log
                         + if SyncDue(w1, w.jobs[i], config)
                           then [Synced(w1.docs[w.jobs[i].documentId.value].workspace, syncs)] else []
  {
    var job := w.jobs[i];
    if job.documentId.Some? { WaitingIff(w.jobs, job.documentId.value); }
  }

  lemma SuccessInPlainTerms(w: World, i: nat, syncs: bool, config: Config)
    requires i < |w.jobs| && w.jobs[i].jobType in config.handled
    ensures |Process(w, i, Success(syncs), config).jobs| == |w.jobs|
    ensures Succeeds(w, Process(w, i, Success(syncs), config), i, syncs, config)
  {
    var started := MarkedRunning(w, i);
    var ended := MarkedSucceeded(started.(log := started.log + [Ran(i)]), i);
    assert Process(w, i, Success(syncs), config) == AfterExtraction(ended, i, syncs, config);
    SyncIsDue(ended, i, syncs, config);
    assert ended.docs == w.docs && ended.log == w.log + [Ran(i)];
  }

  lemma ProcessInPlainTerms(w: World, i: nat, outcome: Outcome, config: Config)
    requires i < |w.jobs|
    ensures PlainlyProcessed(w, Process(w, i, outcome, config), i, outcome, config)
  {
    if w.jobs[i].jobType in config.handled && outcome.Success? { SuccessInPlainTerms(w, i, outcome.syncs, config); }
  }

  /** The worlds between the jobs of one tick. */
  ghost predicate InTurn(worlds: seq<World>, claimed: seq<nat>, oracle: nat -> Outcome, config: Config) {
    && |worlds| == |claimed| + 1
    && forall k :: 0 <= k < |claimed| ==>
         claimed[k] < |worlds[k].jobs|
         && PlainlyProcessed(worlds[k], worlds[k + 1], claimed[k], oracle(claimed[k]), config)
  }

  /** The oldest pending jobs, at most `batch`, are processed one after the other. */
  ghost predicate PlainlyRun(w: World, w1: World, batch: nat, oracle: nat -> Outcome, config: Config, run: nat) {
    exists claimed, worlds :: OldestPending(w.jobs, 0, batch, claimed) && InTurn(worlds, claimed, oracle, config)
      && worlds[0] == w && worlds[|claimed|] == w1 && run == |claimed|
  }

  lemma {:induction false} WorldsBetween(w: World, claimed: seq<nat>, oracle: nat -> Outcome, config: Config)
    returns (worlds: seq<World>)
    requires forall k :: 0 <= k < |claimed| ==> claimed[k] < |w.jobs|
    ensures InTurn(worlds, claimed, oracle, config)
    ensures worlds[0] == w && worlds[|claimed|] == ProcessAll(w, claimed, oracle, config)
  {
    if claimed == [] {
      worlds := [w];
    } else {
      var n := |claimed| - 1;
      var front := WorldsBetween(w, claimed[..n], oracle, config);
      ProcessInPlainTerms(front[n], claimed[n], oracle(claimed[n]), config);
      worlds := front + [ProcessAll(w, claimed, oracle, config)];
      forall k | 0 <= k < |claimed|
        ensures claimed[k] < |worlds[k].jobs|
        ensures PlainlyProcessed(worlds[k], worlds[k + 1], claimed[k], oracle(claimed[k]), config)
      {
        if k < n { assert claimed[..n][k] == claimed[k]; }
      }
    }
  }

  lemma TickInPlainTerms(w: World, batch: nat, oracle: nat -> Outcome, config: Config)
    ensures PlainlyRun(w, Tick(w, batch, oracle, config), batch, oracle, config, |Claim(w.jobs, batch)|)
  {
    ClaimedAre(w.jobs, 0, batch);
    ClaimedExist(w.jobs, batch);
    var worlds := WorldsBetween(w, Claim(w.jobs, batch), oracle, config);
  }

  class TaskJobProcessor {
    var jobs: seq<TaskJob>
    var docs: map<string, Document>
    var log: seq<Event>
    const config: Config

    constructor (jobs: seq<TaskJob>, docs: map<string, Document>, config: Config)
      ensures Contents() == World(jobs, docs, []) && this.config == config
    {
      this.jobs, this.docs, this.log, this.config := jobs, docs, [], config;
    }

    ghost function Contents(): World
      reads this
    {
      World(jobs, docs, log)
    }

    method MarkRunning(i: nat)
      requires i < |jobs|
      modifies this`jobs
      ensures Contents() == MarkedRunning(old(Contents()), i)
      ensures OnlyJobBecomes(old(jobs), jobs, i, Running, old(jobs)[i].progress, old(jobs)[i].error)
    {
      jobs := jobs[i := jobs[i].(status := Running)];
    }

    method MarkSucceeded(i: nat)
      requires i < |jobs|
      modifies this`jobs
      ensures Contents() == MarkedSucceeded(old(Contents()), i)
      ensures OnlyJobBecomes(old(jobs), jobs, i, Succeeded, 100, old(jobs)[i].error)
    {
      jobs := jobs[i := jobs[i].(status := Succeeded, progress := 100)];
    }

    method MarkFailed(i: nat, message: string)
      requires i < |jobs|
      modifies this`jobs, this`docs
      ensures Contents() == MarkedFailed(old(Contents()), i, message)
      ensures OnlyJobBecomes(old(jobs), jobs, i, Failed, old(jobs)[i].progress, Some(message))
      ensures DocumentSays(old(Contents()), Contents(), old(jobs)[i], "failed")
    {
      jobs := jobs[i := jobs[i].(status := Failed, error := Some(message))];
      docs := WithDocStatus(docs, jobs[i], "failed");
    }

    method MarkDeferred(i: nat, progress: int)
      requires i < |jobs|
      modifies this`jobs
      ensures Contents() == MarkedDeferred(old(Contents()), i, progress)
      ensures OnlyJobBecomes(old(jobs), jobs, i, Pending, progress, old(jobs)[i].error)
    {
      jobs := jobs[i := jobs[i].(status := Pending, progress := progress)];
    }

    method HasPending(doc: string) returns (found: bool)
      ensures found == HasPendingExtraction(jobs, doc) && (found <==> Waiting(jobs, doc))
    {
      for k := 0 to |jobs|
        invariant !HasPendingExtraction(jobs[..k], doc)
      {
        if jobs[k].targetId == Some(doc) && IsExtraction(jobs[k].jobType) && jobs[k].status == Pending {
          return true;
        }
        assert jobs[..k + 1] == jobs[..k] + [jobs[k]];
      }
      assert jobs[..|jobs|] == jobs;
      return false;
    }

    method AfterSuccess(i: nat, syncs: bool)
      requires i < |jobs|
      modifies this`docs, this`log
      ensures Contents() == AfterExtraction(old(Contents()), i, syncs, config)
    {
      var job := jobs[i];
      if job.documentId.None? || job.documentId.value !in docs {
        return;
      }
      docs := WithDocStatus(docs, job, "completed");
      var pending := HasPending(job.documentId.value);
      if !pending && config.hasStore {
        log := log + [Synced(docs[job.documentId.value].workspace, syncs)];
      }
    }

    method ProcessJob(i: nat, outcome: Outcome)
      requires i < |jobs|
      modifies this
      ensures Contents() == Process(old(Contents()), i, outcome, config)
      ensures PlainlyProcessed(old(Contents()), Contents(), i, outcome, config)
    {
      ProcessInPlainTerms(Contents(), i, outcome, config);
      if jobs[i].jobType !in config.handled {
        if jobs[i].jobType in EXTERNAL_JOB_TYPES {
          return;
        }
        MarkFailed(i, NoHandler(jobs[i].jobType));
        return;
      }
      MarkRunning(i);
      log := log + [Ran(i)];
      match outcome
      case Defer(progress) => MarkDeferred(i, progress);
      case Raise(message) => MarkFailed(i, message);
      case Success(syncs) =>
        MarkSucceeded(i);
        AfterSuccess(i, syncs);
    }

    /** Claims a batch of the oldest pending jobs and processes them in order. */
    method RunOnce(batch: nat, oracle: nat -> Outcome) returns (run: nat)
      modifies this
      ensures Contents() == Tick(old(Contents()), batch, oracle, config)
      ensures run == |Claim(old(jobs), batch)|
      ensures PlainlyRun(old(Contents()), Contents(), batch, oracle, config, run)
    {
      TickInPlainTerms(Contents(), batch, oracle, config);
      var claimed := Claim(jobs, batch);
      ClaimedExist(jobs, batch);
      run := 0;
      while run < |claimed|
        invariant run <= |claimed| && |jobs| == |old(jobs)|
        invariant Contents() == ProcessAll(old(Contents()), claimed[..run], oracle, config)
      {
        ProcessAllNext(old(Contents()), claimed, run, oracle, config);
        ProcessJob(claimed[run], oracle(claimed[run]));
        run := run + 1;
      }
      assert claimed[..|claimed|] == claimed;
    }
  }
}
