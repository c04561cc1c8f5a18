/**
 * The multi-core job scheduler of libscheduler/libscheduler.c: an array of
 * cores, each idle or running one job, and the priority queue of waiting
 * jobs ordered by the comparer of the scheduling scheme.
 */
module Scheduler {
  import opened Wrappers
  import opened Ordering
  import opened PriorityQueue

  /** scheme_t. */
  datatype Scheme = FCFS | SJF | PSJF | PRI | PPRI | RR

  /**
   * The fields of job_t that the scheduler sets. `arrivalTime` is filled with
   * the job's running time by `scheduler_new_job`.
   */
  datatype Job = Job(pid: int, arrivalTime: int, priority: int)

  /** FCFScompare: a new job never goes ahead of a waiting one. */
  function FcfsCompare(a: Job, b: Job): (r: int)
    ensures r > 0
  {
    1
  }

  /** SJFcompare: `a` goes ahead exactly when its `arrivalTime` field (the running time) is smaller. */
  function SjfCompare(a: Job, b: Job): (r: int)
    ensures r < 0 <==> a.arrivalTime < b.arrivalTime
    ensures r == 0 <==> a.arrivalTime == b.arrivalTime
  {
    a.arrivalTime - b.arrivalTime
  }

  /** PRIcompare: `a` goes ahead exactly when its priority value is smaller. */
  function PriCompare(a: Job, b: Job): (r: int)
    ensures r < 0 <==> a.priority < b.priority
    ensures r == 0 <==> a.priority == b.priority
  {
    a.priority - b.priority
  }

  /** PPRIcompare: the lexicographic order on (priority, arrivalTime). */
  function PpriCompare(a: Job, b: Job): (r: int)
    ensures r < 0 <==>
      a.priority < b.priority || (a.priority == b.priority && a.arrivalTime < b.arrivalTime)
    ensures r == 0 <==> a.priority == b.priority && a.arrivalTime == b.arrivalTime
  {
    var compare := a.priority - b.priority;
    if compare == 0 then a.arrivalTime - b.arrivalTime else compare
  }

  /** The schemes whose queue `scheduler_start_up` initialises. */
  predicate Supported(scheme: Scheme)
  {
    scheme == FCFS || scheme == SJF || scheme == PRI || scheme == PPRI
  }

  /** The comparer `scheduler_start_up` gives the queue for each supported scheme. */
  function ComparerFor(scheme: Scheme): (Job, Job) -> int
    requires Supported(scheme)
  {
    match scheme
    case FCFS => FcfsCompare
    case SJF => SjfCompare
    case PRI => PriCompare
    case PPRI => PpriCompare
  }

  /** Under FCFS every new job goes to the back of the queue. */
  lemma FcfsIsFifo(s: seq<Job>, x: Job)
    ensures Insert(FcfsCompare, s, x) == s + [x]
  {
    NeverAheadAppends(FcfsCompare, s, x);
  }

  /** The comparers of SJF, PRI and PPRI order consistently; so the queue stays sorted under them. */
  lemma OrderingSchemesConsistent(scheme: Scheme)
    requires scheme == SJF || scheme == PRI || scheme == PPRI
    ensures Consistent(ComparerFor(scheme))
  {
  }

  /**
   * What `scheduler_idle_core_finder` finds in a core array: the lowest index
   * of an idle core, or -1 when every core is busy.
   */
  function FirstIdle(s: seq<Option<Job>>): (r: int)
    ensures -1 <= r < |s|
    ensures r == -1 <==> forall i :: 0 <= i < |s| ==> s[i].Some?
    ensures r >= 0 ==> s[r].None? && forall i :: 0 <= i < r ==> s[i].Some?
  {
    if s == [] then -1
    else if s[0].None? then 0
    else
      var k := FirstIdle(s[1..]);
      if k == -1 then -1 else k + 1
  }

  /**
   * The core `scheduler_new_job` would preempt in an array of busy cores: the
   * first one whose job has the largest priority value.
   */
  function LowestPriCore(s: seq<Option<Job>>): (r: int)
    requires |s| > 0 && forall i :: 0 <= i < |s| ==> s[i].Some?
    ensures 0 <= r < |s|
    ensures forall i :: 0 <= i < |s| ==> s[i].value.priority <= s[r].value.priority
    ensures forall i :: 0 <= i < r ==> s[i].value.priority < s[r].value.priority
  {
    if |s| == 1 then 0
    else
      var k := LowestPriCore(s[..|s| - 1]);
      if s[|s| - 1].value.priority > s[k].value.priority then |s| - 1 else k
  }

  class JobScheduler {
    /** m_cores */
    const numCores: int
    /** m_coreArr: None for an idle core (NULL), otherwise the job it runs. */
    const cores: array<Option<Job>>
    /** m_type */
    const scheme: Scheme
    /** The global queue `q` of waiting jobs. */
    const queue: PriQueue<Job>

    /**
     * The state the scheduler keeps: one entry per core, the queue uses the
     * scheme's comparer, and (except under FCFS, whose comparer orders
     * nothing) the waiting jobs are sorted by it.
     */
    ghost predicate Valid()
      reads this, cores, queue
    {
      numCores > 0 && cores.Length == numCores && Supported(scheme) &&
      queue.Valid() && queue.comparer == ComparerFor(scheme) &&
      (scheme != FCFS ==> Sorted(queue.comparer, queue.contents))
    }

    /** scheduler_start_up: all cores idle and an empty queue with the scheme's comparer. */
    constructor StartUp(coreCount: int, scheme: Scheme)
      requires coreCount > 0 && Supported(scheme)
      ensures Valid() && numCores == coreCount && this.scheme == scheme
      ensures forall i :: 0 <= i < cores.Length ==> cores[i] == None
      ensures queue.contents == [] && fresh(cores) && fresh(queue)
    {
      numCores := coreCount;
      var coreArr := new Option<Job>[coreCount];
      var i := 0;
      while i < coreCount
        invariant 0 <= i <= coreCount
        invariant forall k :: 0 <= k < i ==> coreArr[k] == None
      {
        coreArr[i] := None;
        i := i + 1;
      }
      cores := coreArr;
      this.scheme := scheme;
      var cmp;
      if scheme == FCFS {
        cmp := FcfsCompare;
      } else if scheme == SJF {
        cmp := SjfCompare;
      } else if scheme == PRI {
        cmp := PriCompare;
      } else {
        cmp := PpriCompare;
      }
      queue := new PriQueue<Job>.Init(cmp);
    }

    /** scheduler_idle_core_finder. */
    method IdleCoreFinder() returns (r: int)
      requires Valid()
      ensures r == FirstIdle(cores[..])
    {
      var i := 0;
      while i < numCores
        invariant 0 <= i <= numCores
        invariant forall k :: 0 <= k < i ==> cores[k].Some?
      {
        if cores[i] == None {
          return i;
        }
        i := i + 1;
      }
      return -1;
    }

    /**
     * The search of `scheduler_new_job` for the core to preempt when every
     * core is busy (libscheduler.c lines 136-145).
     */
    method LowestPriorityCore() returns (lowestPriCore: int, lowestPriSoFar: int)
      requires Valid() && forall i :: 0 <= i < cores.Length ==> cores[i].Some?
      ensures lowestPriCore == LowestPriCore(cores[..])
      ensures lowestPriSoFar == cores[lowestPriCore].value.priority
    {
      lowestPriSoFar := cores[0].value.priority;
      lowestPriCore := 0;
      var i := 0;
      while i < numCores
        invariant 0 <= i <= numCores
        invariant i == 0 ==> lowestPriCore == 0
        invariant i > 0 ==> lowestPriCore == LowestPriCore(cores[..i])
        invariant 0 <= lowestPriCore < numCores
        invariant lowestPriSoFar == cores[lowestPriCore].value.priority
      {
        assert cores[..i + 1][..i] == cores[..i];
        if cores[i].value.priority > lowestPriSoFar {
          lowestPriSoFar := cores[i].value.priority;
          lowestPriCore := i;
        }
        i := i + 1;
      }
      assert cores[..numCores] == cores[..];
    }

    /**
     * scheduler_new_job: the job (with its running time in `arrivalTime`)
     * takes the lowest idle core; failing that, under PPRI, it preempts the
     * first core running the largest priority value when that value is above
     * its own, and the preempted job waits; otherwise it waits and -1 is
     * returned.
     */
    method NewJob(jobNumber: int, time: int, runningTime: int, priority: int) returns (r: int)
      requires Valid()
      modifies cores, queue
      ensures Valid()
      ensures var s := old(cores[..]);
        var job := Job(jobNumber, runningTime, priority);
        var idle := FirstIdle(s);
        if idle != -1 then
          r == idle && cores[..] == s[idle := Some(job)] && queue.contents == old(queue.contents)
        else if scheme == PPRI && s[LowestPriCore(s)].value.priority > priority then
          var c := LowestPriCore(s);
          r == c && cores[..] == s[c := Some(job)] &&
          queue.contents == Insert(queue.comparer, old(queue.contents), s[c].value)
        else
          r == -1 && cores[..] == s && queue.contents == Insert(queue.comparer, old(queue.contents), job)
    {
      var firstIdleCoreFound := IdleCoreFinder();
      var temp := Job(jobNumber, runningTime, priority);
      if scheme == FCFS || scheme == SJF || scheme == PRI {
        if firstIdleCoreFound != -1 {
          cores[firstIdleCoreFound] := Some(temp);
          return firstIdleCoreFound;
        }
      } else if scheme == PPRI {
        if firstIdleCoreFound != -1 {
          cores[firstIdleCoreFound] := Some(temp);
          return firstIdleCoreFound;
        } else {
          var lowestPriCore, lowestPriSoFar := LowestPriorityCore();
          if lowestPriSoFar > temp.priority {
            var preempted := cores[lowestPriCore].value;
            OrderingSchemesConsistent(scheme);
            InsertKeepsSorted(queue.comparer, queue.contents, preempted);
            var _ := queue.Offer(preempted);
            cores[lowestPriCore] := Some(temp);
            return lowestPriCore;
          }
        }
      }
      if scheme != FCFS {
        OrderingSchemesConsistent(scheme);
        InsertKeepsSorted(queue.comparer, queue.contents, temp);
      }
      var _ := queue.Offer(temp);
      return -1;
    }

    /**
     * scheduler_job_finished: the core is freed; if jobs are waiting, the
     * head of the queue takes it and its pid is returned, otherwise -1.
     */
    method JobFinished(coreId: int, jobNumber: int, time: int) returns (r: int)
      requires Valid() && 0 <= coreId < numCores
      modifies cores, queue
      ensures Valid()
      ensures old(queue.contents) == [] ==>
        r == -1 && cores[..] == old(cores[..])[coreId := None] && queue.contents == []
      ensures old(queue.contents) != [] ==>
        r == old(queue.contents)[0].pid &&
        cores[..] == old(cores[..])[coreId := Some(old(queue.contents)[0])] &&
        queue.contents == old(queue.contents)[1..]
    {
      if scheme == FCFS || scheme == SJF || scheme == PRI || scheme == PPRI {
        cores[coreId] := None;
      }
      var n := queue.Size();
      if n != 0 {
        var temp := queue.Poll();
        cores[coreId] := Some(temp.value);
        return temp.value.pid;
      }
      return -1;
    }

    /** scheduler_quantum_expired: round robin is not implemented, so the core is never given a job. */
    method QuantumExpired(coreId: int, time: int) returns (r: int)
      requires Valid()
      ensures r == -1
    {
      r := -1;
    }
  }
}
