/** The job runner: every registered crawl command has a period in seconds;
    once a second every countdown drops by one, finished threads are
    collected, and each job whose countdown has run out is started unless
    its previous run is still going, then rescheduled. */
module JobScheduler {
  import opened Wrappers

  /** The thread that runs `os.system(job)` for one job. Whether it is
      still alive is an input of each tick. */
  datatype Thread = Thread(job: string)

  /** The crawl commands and their periods in seconds. */
  const JobsRegistry: map<string, int> := map[
    "scrapy crawl biorxiv" := 3600,
    "scrapy crawl cord_19" := 3600 * 6,
    "scrapy crawl chemrxiv" := 3600,
    "scrapy crawl publichealthontario" := 3600,
    "scrapy crawl elsevier_corona" := 3600,
    "scrapy crawl lens_patent_spider" := 3600,
    "scrapy crawl biorxiv_version_tracker" := 86400
  ]

  predicate PositivePeriods(jobs: map<string, int>) {
    forall n :: n in jobs ==> jobs[n] >= 1
  }

  lemma RegistryPeriodsPositive()
    ensures PositivePeriods(JobsRegistry)
    ensures |JobsRegistry| == 7
  {
  }

  // ---------------------------------------------------------------------
  // One tick, as functions of the state before it
  // ---------------------------------------------------------------------

  /** Every countdown one second lower. */
  function Decremented(timer: map<string, int>): map<string, int> {
    map n | n in timer :: timer[n] - 1
  }

  /** `poll_jobs`: runs whose thread is no longer alive are cleared. */
  function Polled(running: map<string, Option<Thread>>, alive: set<Thread>): map<string, Option<Thread>> {
    map n | n in running :: if running[n].Some? && running[n].value !in alive then None else running[n]
  }

  /** The jobs whose countdown has run out. */
  function Due(timer: map<string, int>): set<string> {
    set n | n in timer && timer[n] <= 0
  }

  /** The jobs a tick starts: due and not running after the poll. */
  function ToStart(timer: map<string, int>, running: map<string, Option<Thread>>): set<string> {
    set n | n in Due(timer) && n in running && running[n].None?
  }

  /** Due jobs get a fresh thread unless one is still running. */
  function Launched(timer: map<string, int>, running: map<string, Option<Thread>>): map<string, Option<Thread>> {
    map n | n in running :: if n in ToStart(timer, running) then Some(Thread(n)) else running[n]
  }

  /** Due jobs are rescheduled a full period ahead, whether they ran or not. */
  function Rescheduled(jobs: map<string, int>, timer: map<string, int>): map<string, int>
    requires timer.Keys <= jobs.Keys
  {
    map n | n in timer :: if timer[n] <= 0 then jobs[n] else timer[n]
  }

  /** The whole state after one pass of the `run_forever` loop body. */
  function NextTimer(jobs: map<string, int>, timer: map<string, int>): map<string, int>
    requires timer.Keys <= jobs.Keys
  {
    Rescheduled(jobs, Decremented(timer))
  }

  function NextRunning(timer: map<string, int>, running: map<string, Option<Thread>>,
                       alive: set<Thread>): map<string, Option<Thread>>
  {
    Launched(Decremented(timer), Polled(running, alive))
  }

  function Started(timer: map<string, int>, running: map<string, Option<Thread>>,
                   alive: set<Thread>): set<string>
  {
    ToStart(Decremented(timer), Polled(running, alive))
  }

  // ---------------------------------------------------------------------
  // What a tick guarantees
  // ---------------------------------------------------------------------

  /** `poll_jobs` clears an entry exactly when its thread has ended, and
      leaves every other entry alone. */
  lemma PollClearsExactlyFinished(running: map<string, Option<Thread>>, alive: set<Thread>, n: string)
    requires n in running
    ensures n in Polled(running, alive)
    ensures Polled(running, alive)[n].None? <==> running[n].None? || running[n].value !in alive
    ensures Polled(running, alive)[n].Some? ==> Polled(running, alive)[n] == running[n]
  {
  }

  /** A job whose thread is still alive is never started a second time;
      a started job was left with no live thread by the poll. */
  lemma NoDoubleStart(timer: map<string, int>, running: map<string, Option<Thread>>,
                      alive: set<Thread>, n: string)
    requires timer.Keys == running.Keys && n in running
    ensures running[n].Some? && running[n].value in alive ==>
              n !in Started(timer, running, alive) &&
              NextRunning(timer, running, alive)[n] == running[n]
    ensures n in Started(timer, running, alive) <==>
              timer[n] - 1 <= 0 && (running[n].None? || running[n].value !in alive)
    ensures n in Started(timer, running, alive) ==>
              NextRunning(timer, running, alive)[n] == Some(Thread(n))
  {
    assert n in Decremented(timer) && Decremented(timer)[n] == timer[n] - 1;
    PollClearsExactlyFinished(running, alive, n);
  }

  /** Every due job is rescheduled to its full period, started or not;
      every other countdown keeps its decremented value. */
  lemma DueJobsRescheduled(jobs: map<string, int>, timer: map<string, int>, n: string)
    requires timer.Keys <= jobs.Keys && n in timer
    ensures n in NextTimer(jobs, timer)
    ensures timer[n] - 1 <= 0 ==> NextTimer(jobs, timer)[n] == jobs[n]
    ensures timer[n] - 1 > 0 ==> NextTimer(jobs, timer)[n] == timer[n] - 1
  {
    assert Decremented(timer)[n] == timer[n] - 1;
  }

  /** With positive periods every countdown is at least one after a tick,
      whatever it was before. */
  lemma TimersStayPositive(jobs: map<string, int>, timer: map<string, int>)
    requires timer.Keys <= jobs.Keys && PositivePeriods(jobs)
    ensures forall n :: n in NextTimer(jobs, timer) ==> NextTimer(jobs, timer)[n] >= 1
  {
    forall n | n in NextTimer(jobs, timer) ensures NextTimer(jobs, timer)[n] >= 1 {
      DueJobsRescheduled(jobs, timer, n);
    }
  }

  /** A tick changes no key set. */
  lemma TickKeepsKeys(jobs: map<string, int>, timer: map<string, int>,
                      running: map<string, Option<Thread>>, alive: set<Thread>)
    requires timer.Keys <= jobs.Keys
    ensures NextTimer(jobs, timer).Keys == timer.Keys
    ensures NextRunning(timer, running, alive).Keys == running.Keys
  {
  }

  // ---------------------------------------------------------------------
  // The loops of one tick, over the key sets
  // ---------------------------------------------------------------------

  /** `for name in list(self.timer): self.timer[name] -= 1`. */
  method DecrementAll(timer: map<string, int>) returns (t: map<string, int>)
    ensures t == Decremented(timer)
    ensures t.Keys == timer.Keys && forall n :: n in t ==> t[n] == timer[n] - 1
  {
    t := timer;
    var todo := timer.Keys;
    while todo != {}
      invariant todo <= timer.Keys && t.Keys == timer.Keys
      invariant forall n :: n in t ==> t[n] == if n in todo then timer[n] else timer[n] - 1
      decreases todo
    {
      var n :| n in todo;
      t := t[n := t[n] - 1];
      todo := todo - {n};
    }
  }

  /** The loop of `poll_jobs`. */
  method PollAll(running: map<string, Option<Thread>>, alive: set<Thread>)
    returns (r: map<string, Option<Thread>>)
    ensures r == Polled(running, alive)
  {
    r := running;
    var todo := running.Keys;
    while todo != {}
      invariant todo <= running.Keys && r.Keys == running.Keys
      invariant forall n :: n in r ==> r[n] == if n in todo then running[n] else Polled(running, alive)[n]
      decreases todo
    {
      var n :| n in todo;
      if r[n].Some? && r[n].value !in alive {
        r := r[n := None];
      }
      todo := todo - {n};
    }
  }

  /** `[x for x in self.timer if self.timer[x] <= 0]`, as a set. */
  method DueNow(timer: map<string, int>) returns (due: set<string>)
    ensures due == Due(timer)
  {
    due := {};
    var todo := timer.Keys;
    while todo != {}
      invariant todo <= timer.Keys
      invariant due == set n | n in timer.Keys - todo && timer[n] <= 0
      decreases todo
    {
      var n :| n in todo;
      if timer[n] <= 0 {
        due := due + {n};
      }
      todo := todo - {n};
    }
  }

  /** The state part-way through the loop over the due jobs, once the
      jobs in `done` have been handled. */
  ghost function PartlyRescheduled(jobs: map<string, int>, timer: map<string, int>,
                                   done: set<string>): map<string, int>
    requires timer.Keys <= jobs.Keys
  {
    map n | n in timer :: if n in done then jobs[n] else timer[n]
  }

  ghost function PartlyLaunched(timer: map<string, int>, running: map<string, Option<Thread>>,
                                done: set<string>): map<string, Option<Thread>>
  {
    map n | n in running :: if n in done && n in ToStart(timer, running) then Some(Thread(n)) else running[n]
  }

  lemma RescheduleStep(jobs: map<string, int>, timer: map<string, int>, done: set<string>, job: string)
    requires timer.Keys <= jobs.Keys && job in timer
    ensures PartlyRescheduled(jobs, timer, done + {job}) ==
            PartlyRescheduled(jobs, timer, done)[job := jobs[job]]
  {
  }

  lemma LaunchStep(timer: map<string, int>, running: map<string, Option<Thread>>,
                   done: set<string>, job: string)
    requires job in Due(timer) && job in running && job !in done
    ensures job in PartlyLaunched(timer, running, done)
    ensures PartlyLaunched(timer, running, done)[job] == running[job]
    ensures PartlyLaunched(timer, running, done + {job}) ==
            if running[job].None? then PartlyLaunched(timer, running, done)[job := Some(Thread(job))]
            else PartlyLaunched(timer, running, done)
    ensures (done + {job}) * ToStart(timer, running) ==
            if running[job].None? then done * ToStart(timer, running) + {job}
            else done * ToStart(timer, running)
  {
  }

  lemma NothingDoneYet(jobs: map<string, int>, timer: map<string, int>, running: map<string, Option<Thread>>)
    requires timer.Keys <= jobs.Keys
    ensures PartlyRescheduled(jobs, timer, {}) == timer
    ensures PartlyLaunched(timer, running, {}) == running
    ensures {} * ToStart(timer, running) == {}
  {
  }

  lemma WholeStep(jobs: map<string, int>, timer: map<string, int>, running: map<string, Option<Thread>>)
    requires timer.Keys <= jobs.Keys && running.Keys == timer.Keys
    ensures PartlyRescheduled(jobs, timer, Due(timer)) == Rescheduled(jobs, timer)
    ensures PartlyLaunched(timer, running, Due(timer)) == Launched(timer, running)
    ensures Due(timer) * ToStart(timer, running) == ToStart(timer, running)
  {
  }

  /** The loop over `execution`: each due job is started unless it is
      already running, and then rescheduled as `reset_job` does. */
  method RunDue(jobs: map<string, int>, timer: map<string, int>, running: map<string, Option<Thread>>,
                execution: set<string>)
    returns (timer2: map<string, int>, running2: map<string, Option<Thread>>, started: set<string>)
    requires timer.Keys <= jobs.Keys && running.Keys == timer.Keys
    requires execution == Due(timer)
    ensures timer2 == Rescheduled(jobs, timer)
    ensures running2 == Launched(timer, running)
    ensures started == ToStart(timer, running)
  {
    ghost var done: set<string> := {};
    NothingDoneYet(jobs, timer, running);
    timer2, running2, started := timer, running, {};
    var todo := execution;
    while todo != {}
      invariant todo <= execution && done == execution - todo
      invariant timer2 == PartlyRescheduled(jobs, timer, done)
      invariant running2 == PartlyLaunched(timer, running, done)
      invariant started == done * ToStart(timer, running)
      decreases todo
    {
      var job :| job in todo;
      LaunchStep(timer, running, done, job);
      if running2[job].None? {
        running2 := running2[job := Some(Thread(job))];
        started := started + {job};
      }
      RescheduleStep(jobs, timer, done, job);
      timer2 := timer2[job := jobs[job]];
      todo := todo - {job};
      done := done + {job};
    }
    WholeStep(jobs, timer, running);
  }

  // ---------------------------------------------------------------------
  // The scheduler object
  // ---------------------------------------------------------------------

  class Scheduler {
    var jobs: map<string, int>
    var timer: map<string, int>
    var running: map<string, Option<Thread>>

    /** The three maps share one key set. */
    predicate Valid()
      reads this
    {
      timer.Keys == jobs.Keys && running.Keys == jobs.Keys
    }

    /** `__init__`: copies of the periods, no runs, every job scheduled. */
    constructor (jobs0: map<string, int>)
      ensures Valid()
      ensures jobs == jobs0 && timer == jobs0
      ensures running == map n | n in jobs0 :: None
    {
      jobs := jobs0;
      timer := jobs0;
      running := map n | n in jobs0 :: None;
      new;
      var todo := jobs0.Keys;
      while todo != {}
        invariant todo <= jobs0.Keys
        invariant jobs == jobs0 && timer == jobs0
        invariant running == map n | n in jobs0 :: None
        decreases todo
      {
        var n :| n in todo;
        var err := ResetJob(n);
        todo := todo - {n};
      }
    }

    /** `reset_job`: the job's countdown restarts at its period; an unknown
        name raises KeyError and changes nothing. */
    method ResetJob(name: string) returns (err: Option<PyError>)
      modifies this
      ensures err.Some? <==> name !in old(jobs)
      ensures err.Some? ==> err.value == KeyError && timer == old(timer)
      ensures err.None? ==> timer == old(timer)[name := old(jobs)[name]]
      ensures jobs == old(jobs) && running == old(running)
    {
      if name !in jobs {
        return Some(KeyError);
      }
      timer := timer[name := jobs[name]];
      return None;
    }

    /** `poll_jobs`, with the set of threads still alive as input. */
    method PollJobs(alive: set<Thread>)
      modifies this
      ensures running == Polled(old(running), alive)
      ensures jobs == old(jobs) && timer == old(timer)
    {
      running := PollAll(running, alive);
    }

    /** One pass of the body of `run_forever`, without the one-second
        sleep; `alive` tells which threads are still running at the poll.
        Returns the jobs it started. */
    method Tick(alive: set<Thread>) returns (started: set<string>)
      requires Valid()
      modifies this
      ensures Valid()
      ensures jobs == old(jobs)
      ensures timer == NextTimer(old(jobs), old(timer))
      ensures running == NextRunning(old(timer), old(running), alive)
      ensures started == Started(old(timer), old(running), alive)
      ensures PositivePeriods(jobs) ==> forall n :: n in timer ==> timer[n] >= 1
    {
      if PositivePeriods(jobs) {
        TimersStayPositive(jobs, timer);
      }
      timer := DecrementAll(timer);
      PollJobs(alive);
      var execution := DueNow(timer);
      timer, running, started := RunDue(jobs, timer, running, execution);
    }
  }
}
