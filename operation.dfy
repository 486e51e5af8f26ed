/** The promise-like `Operation` of the parallel runner.
  *
  * An operation is NONE (pending), SUCCESS or ERROR. Callbacks registered while it is pending are
  * queued; settling it runs the matching queue in registration order and then clears both queues.
  * Callbacks are opaque: each is identified by an id, and every invocation is recorded in `trace`.
  */
module AsyncOperation {
  import opened Wrappers

  /** OPERATION_STATE: NONE = 0, SUCESS = 1, ERROR = 2. */
  datatype OperationState = NoneState | SuccessState | ErrorState

  /** An opaque callback. */
  type CallbackId = nat

  /** An opaque JavaScript value; only its truthiness matters to the operation. */
  datatype Value = Null | Opaque(id: nat, truthy: bool)

  predicate IsTruthy(v: Value) {
    v.Opaque? && v.truthy
  }

  /** One invocation `callback(argument)`. */
  datatype Invocation = Call(callback: CallbackId, argument: Value)

  /** Invoking each of `callbacks` with `v`, in order. */
  function CallAll(callbacks: seq<CallbackId>, v: Value): (r: seq<Invocation>)
    ensures |r| == |callbacks|
    ensures forall i :: 0 <= i < |r| ==> r[i].callback == callbacks[i] && r[i].argument == v
  {
    if callbacks == [] then [] else CallAll(callbacks[..|callbacks| - 1], v) + [Call(callbacks[|callbacks| - 1], v)]
  }

  /** Queuing more callbacks and then running the queue runs the old queue first. */
  lemma {:induction false} CallAllAppend(a: seq<CallbackId>, b: seq<CallbackId>, v: Value)
    ensures CallAll(a + b, v) == CallAll(a, v) + CallAll(b, v)
  {
    if b != [] {
      assert (a + b)[..|a + b| - 1] == a + b[..|b| - 1];
      CallAllAppend(a, b[..|b| - 1], v);
    }
  }

  class Operation {
    var successCallbacks: seq<CallbackId>
    var errorCallbacks: seq<CallbackId>
    var status: OperationState
    var result: Value
    /** Every callback invocation made by this operation, oldest first. */
    var trace: seq<Invocation>

    /** `new Operation(result)`: SUCCESS iff the initial result is truthy, with empty queues. */
    constructor(result: Value)
      ensures status == (if IsTruthy(result) then SuccessState else NoneState)
      ensures this.result == result
      ensures successCallbacks == [] && errorCallbacks == [] && trace == []
    {
      successCallbacks := [];
      errorCallbacks := [];
      status := if IsTruthy(result) then SuccessState else NoneState;
      this.result := result;
      trace := [];
    }

    /** Settles with SUCCESS: runs the success queue with `value`, then clears both queues. */
    method Resolve(value: Value)
      modifies this
      ensures status == SuccessState && result == value
      ensures trace == old(trace) + CallAll(old(successCallbacks), value)
      ensures successCallbacks == [] && errorCallbacks == []
    {
      Proceed(SuccessState, value);
    }

    /** Settles with ERROR: runs the error queue with `value`, then clears both queues. */
    method Reject(value: Value)
      modifies this
      ensures status == ErrorState && result == value
      ensures trace == old(trace) + CallAll(old(errorCallbacks), value)
      ensures successCallbacks == [] && errorCallbacks == []
    {
      Proceed(ErrorState, value);
    }

    /** Registers callbacks: a settled operation calls the matching one at once and queues
      * nothing; a pending one queues `resolve`, and queues `reject` only when `resolve` is given. */
    method Then(resolve: Option<CallbackId>, reject: Option<CallbackId>)
      modifies this
      ensures status == old(status) && result == old(result)
      ensures old(status) == SuccessState ==>
        successCallbacks == old(successCallbacks) && errorCallbacks == old(errorCallbacks) &&
        trace == old(trace) + (if resolve.Some? then [Call(resolve.value, result)] else [])
      ensures old(status) == ErrorState ==>
        successCallbacks == old(successCallbacks) && errorCallbacks == old(errorCallbacks) &&
        trace == old(trace) + (if reject.Some? then [Call(reject.value, result)] else [])
      ensures old(status) == NoneState ==>
        trace == old(trace) &&
        successCallbacks == old(successCallbacks) + (if resolve.Some? then [resolve.value] else []) &&
        errorCallbacks == old(errorCallbacks) + (if resolve.Some? && reject.Some? then [reject.value] else [])
    {
      match status {
        case SuccessState =>
          if resolve.Some? {
            trace := trace + [Call(resolve.value, result)];
          }
        case ErrorState =>
          if reject.Some? {
            trace := trace + [Call(reject.value, result)];
          }
        case NoneState =>
          if resolve.Some? {
            successCallbacks := successCallbacks + [resolve.value];
          }
          if resolve.Some? && reject.Some? {
            errorCallbacks := errorCallbacks + [reject.value];
          }
      }
    }

    /** Sets status and result, invokes the queue matching `newStatus` in order, and empties both
      * queues. Nothing stops an already settled operation from being settled again. */
    method Proceed(newStatus: OperationState, value: Value)
      modifies this
      ensures status == newStatus && result == value
      ensures trace == old(trace) +
        CallAll(if newStatus == ErrorState then old(errorCallbacks) else old(successCallbacks), value)
      ensures successCallbacks == [] && errorCallbacks == []
    {
      status := newStatus;
      result := value;
      var callbacks := if newStatus == ErrorState then errorCallbacks else successCallbacks;
      var count := |callbacks|;
      var i := 0;
      while i < count
        invariant 0 <= i <= count
        invariant status == newStatus && result == value
        invariant trace == old(trace) + CallAll(callbacks[..i], value)
      {
        assert callbacks[..i + 1][..i] == callbacks[..i];
        trace := trace + [Call(callbacks[i], value)];
        i := i + 1;
      }
      assert callbacks[..count] == callbacks;
      successCallbacks := [];
      errorCallbacks := [];
    }
  }

  /** Settling twice: the second settlement overwrites status and result, and runs no callback
    * registered before the first one. */
  method SettleTwice(op: Operation, first: Value, second: Value)
    modifies op
    ensures op.status == ErrorState && op.result == second
    ensures op.trace == old(op.trace) + CallAll(old(op.successCallbacks), first)
  {
    op.Resolve(first);
    op.Reject(second);
    assert CallAll([], second) == [];
  }
}
