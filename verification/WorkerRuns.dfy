/** What the worker guarantees over whole runs. */
module WorkerRuns {
  import opened OrderedDict
  import opened Sequences
  import opened TaskWorker

  /** A job leaves a tick in which it was claimed like this. */
  function JobAfter(job: TaskJob, outcome: Outcome, config: Config): TaskJob {
    if job.jobType !in config.handled then
      if job.jobType in EXTERNAL_JOB_TYPES then job else job.(status := Failed, error := Some(NoHandler(job.jobType)))
    else match outcome
      case Success(_) => job.(status := Succeeded, progress := 100)
      case Raise(message) => job.(status := Failed, error := Some(message))
      case Defer(progress) => job.(status := Pending, progress := progress)
  }

  function StatusAfter(job: TaskJob, outcome: Outcome, config: Config): Status { JobAfter(job, outcome, config).status }

  lemma ProcessTouchesOneJob(w: World, i: nat, outcome: Outcome, config: Config)
    requires i < |w.jobs|
    ensures var w1 := Process(w, i, outcome, config);
            && |w1.jobs| == |w.jobs|
            && (forall k :: 0 <= k < |w.jobs| && k != i ==> w1.jobs[k] == w.jobs[k])
            && w1.jobs[i] == JobAfter(w.jobs[i], outcome, config) && SameIdentity(w1.jobs[i], w.jobs[i])
            && (w.jobs[i].jobType !in config.handled && w.jobs[i].jobType in EXTERNAL_JOB_TYPES ==> w1 == w)
  {
  }

  /** What a processed extraction job says on its document; nothing if it was deferred or left alone. */
  function Verdict(job: TaskJob, outcome: Outcome, config: Config): Option<string> {
    var after := JobAfter(job, outcome, config);
    if after.status == Failed && job.status != Failed then Some("failed")
    else if after.status == Succeeded && job.status != Succeeded then Some("completed")
    else None
  }

  /** Of the documents only the job's own changes, and of that only the field for the job's kind of extraction. */
  lemma ProcessMarksItsDocument(w: World, i: nat, outcome: Outcome, config: Config, doc: string)
    requires i < |w.jobs| && w.jobs[i].status == Pending && doc in w.docs
    ensures var w1 := Process(w, i, outcome, config);
            var job, verdict := w.jobs[i], Verdict(w.jobs[i], outcome, config);
            var marked := verdict.Some? && job.documentId == Some(doc);
            var entity := marked && job.jobType == ENTITY_EXTRACTION;
            var relation := marked && job.jobType == RELATION_EXTRACTION;
            && w1.docs.Keys == w.docs.Keys && w1.docs[doc].workspace == w.docs[doc].workspace
            && w1.docs[doc].entityStatus == (if entity then verdict.value else w.docs[doc].entityStatus)
            && w1.docs[doc].relationStatus == (if relation then verdict.value else w.docs[doc].relationStatus)
  {
  }

  /** The jobs after some of the claimed ones have been processed. */
  lemma {:induction false} ProcessAllTouchesClaimed(w: World, claimed: seq<nat>, oracle: nat -> Outcome, config: Config)
    requires forall k :: 0 <= k < |claimed| ==> claimed[k] < |w.jobs|
    requires forall k, l :: 0 <= k < l < |claimed| ==> claimed[k] != claimed[l]
    ensures var w1 := ProcessAll(w, claimed, oracle, config);
            && |w1.jobs| == |w.jobs|
            && (forall i :: 0 <= i < |w.jobs| && i !in claimed ==> w1.jobs[i] == w.jobs[i])
            && (forall i :: 0 <= i < |w.jobs| && i in claimed ==> w1.jobs[i] == JobAfter(w.jobs[i], oracle(i), config))
  {
    if claimed != [] {
      var n := |claimed| - 1;
      var front, last := claimed[..n], claimed[n];
      ProcessAllTouchesClaimed(w, front, oracle, config);
      assert claimed == front + [last] && last !in front;
      ProcessTouchesOneJob(ProcessAll(w, front, oracle, config), last, oracle(last), config);
    }
  }

  predicate SameIdentity(a: TaskJob, b: TaskJob) {
    a.jobType == b.jobType && a.targetId == b.targetId && a.documentId == b.documentId
  }

  /** Claimed by the tick: among the `batch` oldest pending jobs. */
  predicate Claimed(w: World, batch: nat, i: nat) { i in Claim(w.jobs, batch) }

  ghost predicate TickSpec(w: World, w1: World, batch: nat, oracle: nat -> Outcome, config: Config, i: nat)
    requires i < |w.jobs| == |w1.jobs|
  {
    if Claimed(w, batch, i)
    then w.jobs[i].status == Pending && w1.jobs[i] == JobAfter(w.jobs[i], oracle(i), config)
    else w1.jobs[i] == w.jobs[i]
  }

  /** A tick changes the claimed jobs, each as its own handler ended, and no others. */
  lemma TickIsPerJob(w: World, batch: nat, oracle: nat -> Outcome, config: Config)
    ensures var w1 := Tick(w, batch, oracle, config);
            |w1.jobs| == |w.jobs| && forall i :: 0 <= i < |w.jobs| ==> TickSpec(w, w1, batch, oracle, config, i)
  {
    ClaimedAre(w.jobs, 0, batch);
    ProcessAllTouchesClaimed(w, Claim(w.jobs, batch), oracle, config);
  }

  /** Safety of a tick: finished jobs stay as they are, no job is newly left running, and an external job without
      a handler is not touched. */
  lemma TickIsSafe(w: World, batch: nat, oracle: nat -> Outcome, config: Config, i: nat)
    requires i < |w.jobs|
    ensures var w1 := Tick(w, batch, oracle, config);
            && (w.jobs[i].status != Pending ==> w1.jobs[i] == w.jobs[i])
            && (w1.jobs[i].status == Running ==> w.jobs[i].status == Running)
            && (w.jobs[i].jobType in EXTERNAL_JOB_TYPES - config.handled ==> w1.jobs[i] == w.jobs[i])
  {
    TickIsPerJob(w, batch, oracle, config);
    assert TickSpec(w, Tick(w, batch, oracle, config), batch, oracle, config, i);
  }

  // ----- runs -----

  /** What happens around one tick: jobs that arrive before it, and how handlers end in it. */
  datatype Turn = Turn(arrivals: seq<TaskJob>, oracle: nat -> Outcome)

  function Arrive(w: World, arrivals: seq<TaskJob>): (r: World)
    ensures w.jobs <= r.jobs && |r.jobs| == |w.jobs| + |arrivals|
    ensures forall k :: 0 <= k < |arrivals| ==> r.jobs[|w.jobs| + k] == arrivals[k]
    ensures r.docs == w.docs && r.log == w.log
  {
    w.(jobs := w.jobs + arrivals)
  }

  function Run(w: World, turns: seq<Turn>, batch: nat, config: Config): World
    decreases |turns|
  {
    if turns == [] then w
    else Run(Tick(Arrive(w, turns[0].arrivals), batch, turns[0].oracle, config), turns[1..], batch, config)
  }

  /** The pending jobs older than the one at `p`. */
  ghost function OlderPending(w: World, p: nat): set<nat>
    requires p <= |w.jobs|
  {
    set i: nat | i < p && w.jobs[i].status == Pending
  }

  /** The job at `i` cannot be made to wait by its handler in this run. */
  ghost predicate NeverStalls(w: World, turns: seq<Turn>, config: Config, i: nat)
    requires i < |w.jobs|
  {
    if w.jobs[i].jobType in config.handled then forall t :: 0 <= t < |turns| ==> !turns[t].oracle(i).Defer?
    else w.jobs[i].jobType !in EXTERNAL_JOB_TYPES
  }

  ghost function Members(c: seq<nat>): set<nat> { set i | i in c }

  lemma {:induction false} MembersCounted(c: seq<nat>)
    requires forall k, l :: 0 <= k < l < |c| ==> c[k] != c[l]
    ensures |Members(c)| == |c|
  {
    if c != [] {
      var n := |c| - 1;
      MembersCounted(c[..n]);
      assert c == c[..n] + [c[n]];
      assert c[n] !in c[..n];
      assert Members(c) == Members(c[..n]) + {c[n]};
    }
  }

  /** A job is claimed exactly when fewer than `batch` older jobs are pending. */
  lemma ClaimedIffFewOlder(w: World, batch: nat, p: nat)
    requires p < |w.jobs| && w.jobs[p].status == Pending
    ensures Claimed(w, batch, p) <==> |OlderPending(w, p)| < batch
    ensures !Claimed(w, batch, p) ==>
              |Members(Claim(w.jobs, batch))| == batch && Members(Claim(w.jobs, batch)) <= OlderPending(w, p)
  {
    var c := Claim(w.jobs, batch);
    ClaimedAre(w.jobs, 0, batch);
    MembersCounted(c);
    if p in c {
      OlderAreClaimedToo(w, batch, p);
      SubsetCount({p}, Members(c));
      SubsetCount(OlderPending(w, p), Members(c) - {p});
    } else {
      ClaimedAreOlder(w, batch, p);
      SubsetCount(Members(c), OlderPending(w, p));
    }
  }

  lemma OlderAreClaimedToo(w: World, batch: nat, p: nat)
    requires p < |w.jobs| && Claimed(w, batch, p)
    ensures OlderPending(w, p) <= Members(Claim(w.jobs, batch)) - {p}
  {
    var c := Claim(w.jobs, batch);
    ClaimedAre(w.jobs, 0, batch);
    var at :| 0 <= at < |c| && c[at] == p;
    assert forall i :: i in OlderPending(w, p) ==> i in c;
  }

  lemma ClaimedAreOlder(w: World, batch: nat, p: nat)
    requires p < |w.jobs| && w.jobs[p].status == Pending && !Claimed(w, batch, p)
    ensures Members(Claim(w.jobs, batch)) <= OlderPending(w, p) && |Claim(w.jobs, batch)| == batch
  {
    var c := Claim(w.jobs, batch);
    ClaimedAre(w.jobs, 0, batch);
    forall i | i in c ensures i in OlderPending(w, p) {
      var at :| 0 <= at < |c| && c[at] == i;
    }
  }

  /** While the job at `p` is passed over, the tick clears all but the stalling ones of its claimed elders. */
  lemma PassedOverClears(w: World, batch: nat, oracle: nat -> Outcome, config: Config, p: nat, stalling: set<nat>)
    requires p < |w.jobs| && w.jobs[p].status == Pending
    requires forall i :: i in OlderPending(w, p) && i !in stalling ==>
               StatusAfter(w.jobs[i], oracle(i), config) != Pending
    ensures var cleared := Members(Claim(w.jobs, batch)) - stalling;
            OlderPending(Tick(w, batch, oracle, config), p) <= OlderPending(w, p) - cleared
  {
    var w1 := Tick(w, batch, oracle, config);
    TickIsPerJob(w, batch, oracle, config);
    forall i | i in OlderPending(w1, p) ensures i in OlderPending(w, p) - (Members(Claim(w.jobs, batch)) - stalling) {
      assert TickSpec(w, w1, batch, oracle, config, i);
    }
  }

  lemma ClearedCount(older: set<nat>, older1: set<nat>, taken: set<nat>, stalling: set<nat>)
    requires taken <= older && older1 <= older - (taken - stalling)
    ensures |older1| <= |older| - (|taken| - |stalling|)
  {
    var cleared := taken - stalling;
    SubsetCount(older1, older - cleared);
    SubsetCount(cleared, older);
    SubsetCount(taken * stalling, stalling);
    SubsetCount(taken * stalling, taken);
    assert cleared == taken - taken * stalling;
  }

  lemma PassedOverMakesProgress(w: World, batch: nat, oracle: nat -> Outcome, config: Config, p: nat,
                                stalling: set<nat>)
    requires p < |w.jobs| && w.jobs[p].status == Pending && !Claimed(w, batch, p)
    requires forall i :: i in OlderPending(w, p) && i !in stalling ==>
               StatusAfter(w.jobs[i], oracle(i), config) != Pending
    ensures var w1 := Tick(w, batch, oracle, config);
            && OlderPending(w1, p) <= OlderPending(w, p)
            && |OlderPending(w1, p)| <= |OlderPending(w, p)| - (batch - |stalling|)
  {
    PassedOverClears(w, batch, oracle, config, p, stalling);
    ClaimedIffFewOlder(w, batch, p);
    ClearedCount(OlderPending(w, p), OlderPending(Tick(w, batch, oracle, config), p), Members(Claim(w.jobs, batch)),
                 stalling);
  }

  lemma ArrivalsAreYounger(w: World, arrivals: seq<TaskJob>, p: nat)
    requires p <= |w.jobs|
    ensures OlderPending(Arrive(w, arrivals), p) == OlderPending(w, p)
    ensures forall i :: 0 <= i < |w.jobs| ==> Arrive(w, arrivals).jobs[i] == w.jobs[i]
  {
  }

  /** Finished jobs are never taken up again, in any run. */
  lemma {:induction false} FinishedStays(w: World, turns: seq<Turn>, batch: nat, config: Config, p: nat)
    requires p < |w.jobs| && w.jobs[p].status != Pending
    ensures var w1 := Run(w, turns, batch, config); |w1.jobs| >= |w.jobs| && w1.jobs[p] == w.jobs[p]
    decreases |turns|
  {
    if turns != [] {
      var w0 := Arrive(w, turns[0].arrivals);
      TickIsSafe(w0, batch, turns[0].oracle, config, p);
      FinishedStays(Tick(w0, batch, turns[0].oracle, config), turns[1..], batch, config, p);
    }
  }

  /** Bounded wait. If at most b < batch of the older pending jobs can stall and r are pending at the start, then
      after more than (r - b) / (batch - b) turns the job is finished, whatever arrives meanwhile. */
  lemma {:induction false} BoundedWait(w: World, turns: seq<Turn>, batch: nat, config: Config, p: nat,
                                       stalling: set<nat>)
    requires p < |w.jobs| && w.jobs[p].status == Pending
    requires |stalling| < batch && turns != []
    requires |turns| * (batch - |stalling|) > |OlderPending(w, p)| - |stalling|
    requires NeverStalls(w, turns, config, p)
    requires forall i :: i in OlderPending(w, p) && i !in stalling ==> NeverStalls(w, turns, config, i)
    ensures var w1 := Run(w, turns, batch, config);
            |w1.jobs| > p && (w1.jobs[p].status == Succeeded || w1.jobs[p].status == Failed)
    decreases |turns|
  {
    var w0 := Arrive(w, turns[0].arrivals);
    var oracle := turns[0].oracle;
    var w1 := Tick(w0, batch, oracle, config);
    ArrivalsAreYounger(w, turns[0].arrivals, p);
    TickIsPerJob(w0, batch, oracle, config);
    assert TickSpec(w0, w1, batch, oracle, config, p);
    if Claimed(w0, batch, p) {
      FinishedStays(w1, turns[1..], batch, config, p);
    } else {
      forall i | i in OlderPending(w0, p) && i !in stalling
        ensures StatusAfter(w0.jobs[i], oracle(i), config) != Pending
      {
        assert NeverStalls(w, turns, config, i);
      }
      PassedOverMakesProgress(w0, batch, oracle, config, p, stalling);
      ClaimedIffFewOlder(w0, batch, p);
      FewerTurnsLeft(|turns|, batch - |stalling|, |OlderPending(w0, p)| - |stalling|,
                     |OlderPending(w1, p)| - |stalling|);
      forall i | (i in OlderPending(w1, p) && i !in stalling) || i == p ensures NeverStalls(w1, turns[1..], config, i) {
        assert TickSpec(w0, w1, batch, oracle, config, i);
        assert NeverStalls(w, turns, config, i);
        assert forall t :: 0 <= t < |turns| - 1 ==> turns[1..][t] == turns[t + 1];
      }
      BoundedWait(w1, turns[1..], batch, config, p, stalling);
    }
  }

  lemma FewerTurnsLeft(n: int, step: int, r: int, r1: int)
    requires step > 0 && n * step > r && r1 <= r - step && r >= step
    ensures (n - 1) * step > r1 && n > 1
  {
    assert (n - 1) * step == n * step - step;
    assert (1 - n) * step == step - n * step;
    assert n <= 1 ==> (1 - n) * step >= 0;
  }

  /** The bound as a number of turns. */
  lemma WaitInTurns(r: nat, b: nat, batch: nat, n: nat)
    requires b <= r && b < batch && n >= (r - b) / (batch - b) + 1
    ensures n * (batch - b) > r - b
  {
    var q := (r - b) / (batch - b);
    assert r - b < (q + 1) * (batch - b);
    assert n * (batch - b) >= (q + 1) * (batch - b);
  }

  /** The side condition is needed: behind `batch` older jobs that stall at every turn, a job is never claimed. */
  lemma {:induction false} StarvedBehindStalledJobs(w: World, turns: seq<Turn>, batch: nat, config: Config, p: nat,
                                                    stalling: set<nat>)
    requires p < |w.jobs| && w.jobs[p].status == Pending
    requires stalling <= OlderPending(w, p) && |stalling| >= batch
    requires forall i :: i in stalling ==> AlwaysStalls(w, turns, config, i)
    ensures var w1 := Run(w, turns, batch, config); |w1.jobs| >= |w.jobs| && w1.jobs[p] == w.jobs[p]
    decreases |turns|
  {
    if turns != [] {
      var w0 := Arrive(w, turns[0].arrivals);
      var oracle := turns[0].oracle;
      var w1 := Tick(w0, batch, oracle, config);
      ArrivalsAreYounger(w, turns[0].arrivals, p);
      SubsetCount(stalling, OlderPending(w0, p));
      ClaimedIffFewOlder(w0, batch, p);
      TickIsPerJob(w0, batch, oracle, config);
      assert TickSpec(w0, w1, batch, oracle, config, p);
      forall i | i in stalling ensures i in OlderPending(w1, p) && AlwaysStalls(w1, turns[1..], config, i) {
        assert TickSpec(w0, w1, batch, oracle, config, i);
        assert AlwaysStalls(w, turns, config, i);
        assert forall t :: 0 <= t < |turns| - 1 ==> turns[1..][t] == turns[t + 1];
      }
      StarvedBehindStalledJobs(w1, turns[1..], batch, config, p, stalling);
    }
  }

  ghost predicate AlwaysStalls(w: World, turns: seq<Turn>, config: Config, i: nat)
    requires i < |w.jobs|
  {
    if w.jobs[i].jobType in config.handled then forall t :: 0 <= t < |turns| ==> turns[t].oracle(i).Defer?
    else w.jobs[i].jobType in EXTERNAL_JOB_TYPES
  }
}
