/** The worker-slot allocator of the parallel runner.
  *
  * The pool keeps one "used" flag and one worker per slot. Workers are opaque handles: cloning a
  * worker, dispatching a job to it and terminating it are calls into the worker wrappers, which
  * this model records as events instead of performing.
  */
module WorkerSlots {
  import opened Wrappers

  /** THREAD_TYPE: the kind of job the workers run. */
  datatype ThreadType = Placement | Pair

  /** An opaque worker wrapper. */
  type Worker = nat

  /** An opaque job environment or job payload. */
  type Payload = nat

  /** A call made on a worker wrapper. */
  datatype WorkerEvent =
    | Dispatched(worker: Worker, threadType: ThreadType, env: Option<Payload>, data: Payload)
    | Terminated(worker: Worker)

  /** The TypeError raised when `trigger` reaches a slot that holds no worker. */
  datatype TriggerError = NoWorkerInSlot(id: int)

  /** `Array.prototype.indexOf` on a boolean array. */
  function IndexOf(flags: seq<bool>, x: bool): (r: int)
    ensures -1 <= r < |flags|
    ensures r >= 0 ==> flags[r] == x && forall j :: 0 <= j < r ==> flags[j] != x
    ensures r < 0 <==> forall j :: 0 <= j < |flags| ==> flags[j] != x
  {
    if flags == [] then -1
    else if flags[0] == x then 0
    else
      var k := IndexOf(flags[1..], x);
      if k < 0 then -1 else k + 1
  }

  /** The terminations performed on the non-null workers of a slot array, in slot order. */
  function Terminations(workers: seq<Option<Worker>>): (r: seq<WorkerEvent>)
    ensures |r| <= |workers|
    ensures forall e :: e in r ==> e.Terminated? && Some(e.worker) in workers
    ensures (forall i :: 0 <= i < |workers| ==> workers[i].None?) ==> r == []
  {
    if workers == [] then []
    else
      var rest := Terminations(workers[..|workers| - 1]);
      match workers[|workers| - 1]
      case None => rest
      case Some(w) => rest + [Terminated(w)]
  }

  class WorkerPool {
    const workerCount: nat
    const usedWorkers: array<bool>
    const workers: array<Option<Worker>>
    var optionsId: ThreadType
    var optionsEnv: Option<Payload>
    var isTerminated: bool
    /** The calls made on worker wrappers, oldest first. */
    var events: seq<WorkerEvent>

    ghost predicate Valid()
      reads this
    {
      usedWorkers.Length == workerCount && workers.Length == workerCount
    }

    /** A pool of `hardwareConcurrency` slots (4 when that is 0 or unknown), all free, every worker
      * null, terminated, with PAIR jobs and no environment. */
    constructor(hardwareConcurrency: nat)
      ensures Valid()
      ensures workerCount == (if hardwareConcurrency == 0 then 4 else hardwareConcurrency)
      ensures forall i :: 0 <= i < workerCount ==> !usedWorkers[i] && workers[i] == None
      ensures isTerminated && optionsId == Pair && optionsEnv == None && events == []
    {
      var count := if hardwareConcurrency == 0 then 4 else hardwareConcurrency;
      workerCount := count;
      usedWorkers := new bool[count](_ => false);
      workers := new Option<Worker>[count](_ => None);
      optionsId := Pair;
      optionsEnv := None;
      isTerminated := true;
      events := [];
    }

    /** Sets the job options and frees every slot; a terminated pool also gets a fresh clone of
      * the worker in every slot (`clones`, one per slot) and is no longer terminated. */
    method Update(id: ThreadType, env: Option<Payload>, clones: seq<Worker>)
      requires Valid() && |clones| == workerCount
      modifies this, usedWorkers, workers
      ensures Valid() && optionsId == id && optionsEnv == env && events == old(events)
      ensures forall i :: 0 <= i < workerCount ==> !usedWorkers[i]
      ensures old(isTerminated) ==> !isTerminated && forall i :: 0 <= i < workerCount ==> workers[i] == Some(clones[i])
      ensures !old(isTerminated) ==> !isTerminated && workers[..] == old(workers[..])
    {
      optionsId := id;
      optionsEnv := env;
      var i := 0;
      while i < workerCount
        invariant 0 <= i <= workerCount
        invariant forall j :: 0 <= j < i ==> !usedWorkers[j]
        invariant workers[..] == old(workers[..])
        invariant optionsId == id && optionsEnv == env && events == old(events) && isTerminated == old(isTerminated)
      {
        usedWorkers[i] := false;
        i := i + 1;
      }
      if isTerminated {
        i := 0;
        while i < workerCount
          invariant 0 <= i <= workerCount
          invariant forall j :: 0 <= j < workerCount ==> !usedWorkers[j]
          invariant forall j :: 0 <= j < i ==> workers[j] == Some(clones[j])
          invariant optionsId == id && optionsEnv == env && events == old(events)
        {
          workers[i] := Some(clones[i]);
          i := i + 1;
        }
        isTerminated := false;
      }
    }

    /** A given id (anything but -1) is returned unchanged; otherwise the lowest free slot is
      * claimed and returned, or -1 when every slot is in use. */
    method Spawn(inputId: int) returns (r: int)
      requires Valid()
      modifies usedWorkers
      ensures inputId != -1 ==> r == inputId && usedWorkers[..] == old(usedWorkers[..])
      ensures inputId == -1 ==> r == IndexOf(old(usedWorkers[..]), false)
      ensures inputId == -1 && r >= 0 ==> usedWorkers[..] == old(usedWorkers[..])[r := true]
      ensures inputId == -1 && r < 0 ==> usedWorkers[..] == old(usedWorkers[..])
    {
      if inputId != -1 {
        return inputId;
      }
      var index := IndexOf(usedWorkers[..], false);
      if index != -1 {
        usedWorkers[index] := true;
      }
      return index;
    }

    /** Dispatches `data` to the worker in slot `id`. -1 dispatches nothing and yields false; a
      * slot without a worker raises a TypeError. */
    method Trigger(id: int, data: Payload) returns (r: Result<bool, TriggerError>)
      requires Valid()
      modifies this
      ensures id == -1 ==> r == Success(false) && events == old(events)
      ensures id != -1 && (id < 0 || id >= workerCount || workers[id].None?) ==>
        r == Failure(NoWorkerInSlot(id)) && events == old(events)
      ensures id != -1 && 0 <= id < workerCount && workers[id].Some? ==>
        r == Success(true) && events == old(events) + [Dispatched(workers[id].value, optionsId, optionsEnv, data)]
      ensures optionsId == old(optionsId) && optionsEnv == old(optionsEnv) && isTerminated == old(isTerminated)
    {
      if id == -1 {
        return Success(false);
      }
      if id < 0 || id >= workerCount || workers[id].None? {
        return Failure(NoWorkerInSlot(id));
      }
      events := events + [Dispatched(workers[id].value, optionsId, optionsEnv, data)];
      return Success(true);
    }

    /** Frees slot `id` and nothing else. */
    method Clean(id: int)
      requires Valid() && 0 <= id < workerCount
      modifies usedWorkers
      ensures usedWorkers[..] == old(usedWorkers[..])[id := false]
    {
      usedWorkers[id] := false;
    }

    /** Terminates every worker, nulls every slot, frees every slot and marks the pool terminated. */
    method TerminateAll()
      requires Valid()
      modifies this, usedWorkers, workers
      ensures Valid() && isTerminated
      ensures forall i :: 0 <= i < workerCount ==> !usedWorkers[i] && workers[i] == None
      ensures events == old(events) + Terminations(old(workers[..]))
      ensures optionsId == old(optionsId) && optionsEnv == old(optionsEnv)
    {
      var i := 0;
      while i < workerCount
        invariant 0 <= i <= workerCount
        invariant forall j :: 0 <= j < i ==> !usedWorkers[j] && workers[j] == None
        invariant forall j :: i <= j < workerCount ==> workers[j] == old(workers[j])
        invariant events == old(events) + Terminations(old(workers[..])[..i])
        invariant optionsId == old(optionsId) && optionsEnv == old(optionsEnv)
      {
        assert old(workers[..])[..i + 1][..i] == old(workers[..])[..i];
        if workers[i] != None {
          events := events + [Terminated(workers[i].value)];
          workers[i] := None;
        }
        usedWorkers[i] := false;
        i := i + 1;
      }
      assert old(workers[..])[..workerCount] == old(workers[..]);
      isTerminated := true;
    }

    /** True iff no slot is free: the pool is fully in use. */
    function IsEmpty(): (r: bool)
      reads this, usedWorkers
      requires Valid()
      ensures r <==> forall i :: 0 <= i < workerCount ==> usedWorkers[i]
    {
      IndexOf(usedWorkers[..], false) == -1
    }
  }

  /** After `n` successful spawns from a fresh pool, slots 0 .. n-1 are taken. */
  lemma {:induction false} SpawnOrder(flags: seq<bool>, n: nat)
    requires n <= |flags|
    requires forall i :: 0 <= i < |flags| ==> flags[i] == (i < n)
    ensures n < |flags| ==> IndexOf(flags, false) == n
    ensures n == |flags| ==> IndexOf(flags, false) == -1
  {
    if flags != [] && n > 0 {
      SpawnOrder(flags[1..], n - 1);
    }
  }
}
