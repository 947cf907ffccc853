/** The pool of requests that threads share (src/request.c): a stack of at most 32 requests under a
    mutex. Threads are interleaved one memory access at a time. */
module RequestPool {
  import opened Strings

  /** REQUEST_STACK_SIZE */
  const STACK_SIZE: nat := 32

  type Thread = nat
  type RequestId = nat

  /** Where a thread stands in request_get or request_release. */
  datatype Place =
    | Outside                            // neither function, no request
    | GetLocked                          // holds the mutex, has not looked at the count
    | GetPopped                          // has decremented the count, has not read the slot
    | GetDone(found: Option<RequestId>) // has read the slot, or found nothing; still holds the mutex
    | Creating                           // without the mutex, about to allocate a request
    | Using(request: RequestId)          // has a request of its own
    | ReleaseLocked(request: RequestId)  // holds the mutex, has not looked at the count
    | ReleaseStored(request: RequestId)  // has written the slot, has not incremented the count
    | ReleaseDone                        // still holds the mutex
    | ReleaseFull(request: RequestId)    // found the stack full; still holds the mutex
    | Destroying(request: RequestId)     // without the mutex, about to free the request

  predicate Critical(p: Place) {
    p.GetLocked? || p.GetPopped? || p.GetDone? || p.ReleaseLocked? || p.ReleaseStored? || p.ReleaseDone?
      || p.ReleaseFull?
  }

  /** Shared memory, the mutex, and the threads. Requests are numbered as they are allocated. */
  datatype State = State(
    stack: seq<RequestId>,          // requestStackG, all 32 slots
    count: int,                     // requestStackCountG
    mutex: Option<Thread>,
    places: map<Thread, Place>,
    created: nat,
    freed: set<RequestId>)

  function At(s: State, t: Thread): Place { if t in s.places then s.places[t] else Outside }

  function Go(s: State, t: Thread, p: Place): State { s.(places := s.places[t := p]) }

  /** The next step of thread t; None when it has to wait for the mutex. A thread outside starts to get a
      request, and a thread that uses one gives it back, or frees it when its set-up has failed. */
  function Next(s: State, t: Thread, failed: bool): Option<State> {
    match At(s, t)
    case Outside => if s.mutex.Some? then None else Some(Go(s, t, GetLocked).(mutex := Some(t)))
    case GetLocked =>
      if s.count != 0 then Some(Go(s, t, GetPopped).(count := s.count - 1)) else Some(Go(s, t, GetDone(None)))
    case GetPopped => if 0 <= s.count < |s.stack| then Some(Go(s, t, GetDone(Some(s.stack[s.count])))) else None
    case GetDone(r) => Some(Go(s, t, if r.Some? then Using(r.value) else Creating).(mutex := None))
    case Creating => Some(Go(s, t, Using(s.created)).(created := s.created + 1))
    case Using(r) =>
      if failed then Some(Go(s, t, Destroying(r)))
      else if s.mutex.Some? then None
      else Some(Go(s, t, ReleaseLocked(r)).(mutex := Some(t)))
    case ReleaseLocked(r) =>
      if s.count == STACK_SIZE then Some(Go(s, t, ReleaseFull(r)))
      else if 0 <= s.count < |s.stack| then Some(Go(s, t, ReleaseStored(r)).(stack := s.stack[s.count := r])) else None
    case ReleaseStored(r) => Some(Go(s, t, ReleaseDone).(count := s.count + 1))
    case ReleaseDone => Some(Go(s, t, Outside).(mutex := None))
    case ReleaseFull(r) => Some(Go(s, t, Destroying(r)).(mutex := None))
    case Destroying(r) => Some(Go(s, t, Outside).(freed := s.freed + {r}))
  }

  function Initial(stack: seq<RequestId>): State { State(stack, 0, None, map[], 0, {}) }

  // ---------------------------------------------------------------- who has which request

  /** The requests in the pool. */
  function Pool(s: State): seq<RequestId> {
    if 0 <= s.count <= |s.stack| then s.stack[..s.count] else []
  }

  /** The request that thread t has, if any. Between the two halves of a pop the slot belongs to it. */
  function Has(s: State, t: Thread): Option<RequestId> {
    match At(s, t)
    case GetPopped => if 0 <= s.count < |s.stack| then Some(s.stack[s.count]) else None
    case GetDone(r) => r
    case Using(r) => Some(r)
    case ReleaseLocked(r) => Some(r)
    case ReleaseStored(r) => Some(r)
    case ReleaseFull(r) => Some(r)
    case Destroying(r) => Some(r)
    case _ => None
  }

  /** The mutex excludes: whoever is inside a critical section holds it. */
  ghost predicate Exclusive(s: State) {
    forall t: Thread {:trigger At(s, t)} :: Critical(At(s, t)) <==> s.mutex == Some(t)
  }

  /** The count stays within the array; a thread between two accesses leaves room for the second. */
  ghost predicate InBounds(s: State) {
    && |s.stack| == STACK_SIZE && 0 <= s.count <= STACK_SIZE
    && (forall t: Thread {:trigger At(s, t)} ::
          && (At(s, t).GetPopped? ==> s.count < STACK_SIZE)
          && (At(s, t).ReleaseStored? ==> s.count < STACK_SIZE && s.stack[s.count] == At(s, t).request))
  }

  ghost predicate PoolDistinct(s: State) {
    forall i, j :: 0 <= i < j < |Pool(s)| ==> Pool(s)[i] != Pool(s)[j]
  }

  /** What a thread has is in use: neither pooled nor freed. */
  ghost predicate InUse(s: State) {
    forall t: Thread {:trigger Has(s, t)} :: Has(s, t).Some? ==>
      Has(s, t).value !in Pool(s) && Has(s, t).value !in s.freed && Has(s, t).value < s.created
  }

  ghost predicate OneOwner(s: State) {
    forall t: Thread, u: Thread {:trigger Has(s, t), Has(s, u)} :: t != u && Has(s, t).Some? ==> Has(s, t) != Has(s, u)
  }

  ghost predicate PoolLive(s: State) {
    && (forall i :: 0 <= i < |Pool(s)| ==> Pool(s)[i] !in s.freed && Pool(s)[i] < s.created)
    && (forall r <- s.freed :: r < s.created)
  }

  /** No request is in two places: pool slots differ, no thread has a pooled or a freed request, no two
      threads have the same one, and nothing freed is pooled. */
  ghost predicate Separate(s: State) { PoolDistinct(s) && InUse(s) && OneOwner(s) && PoolLive(s) }

  /** No request is lost: every one that was allocated is pooled, freed, or some thread's. */
  ghost predicate Accounted(s: State) {
    forall r: nat :: r < s.created ==> r in Pool(s) || r in s.freed || exists t: Thread :: Has(s, t) == Some(r)
  }

  ghost predicate Inv(s: State) { Exclusive(s) && InBounds(s) && Separate(s) && Accounted(s) }

  // ---------------------------------------------------------------- every step keeps this

  lemma InitialInv(stack: seq<RequestId>)
    requires |stack| == STACK_SIZE
    ensures Inv(Initial(stack))
  {}

  lemma StepExclusive(s: State, t: Thread, failed: bool)
    requires Exclusive(s) && Next(s, t, failed).Some?
    ensures Exclusive(Next(s, t, failed).value)
  {
    var s' := Next(s, t, failed).value;
    forall u: Thread ensures Critical(At(s', u)) <==> s'.mutex == Some(u) {
      assert u != t ==> At(s', u) == At(s, u);
      assert Critical(At(s, u)) <==> s.mutex == Some(u);
      assert Critical(At(s, t)) <==> s.mutex == Some(t);
    }
  }

  lemma StepInBounds(s: State, t: Thread, failed: bool)
    requires Exclusive(s) && InBounds(s) && Next(s, t, failed).Some?
    ensures InBounds(Next(s, t, failed).value)
  {
    var s' := Next(s, t, failed).value;
    assert Critical(At(s, t)) <==> s.mutex == Some(t);
    forall u: Thread
      ensures At(s', u).GetPopped? ==> s'.count < STACK_SIZE
      ensures At(s', u).ReleaseStored? ==> s'.count < STACK_SIZE && s'.stack[s'.count] == At(s', u).request
    {
      assert u != t ==> At(s', u) == At(s, u);
      assert Critical(At(s, u)) <==> s.mutex == Some(u);
    }
  }

  /** What a step does to the pool, to what the thread has and to what other threads have. */
  lemma StepMoves(s: State, t: Thread, failed: bool)
    requires Exclusive(s) && InBounds(s) && Next(s, t, failed).Some?
    ensures var s' := Next(s, t, failed).value;
      && (forall u: Thread {:trigger Has(s', u)} :: u != t ==> Has(s', u) == Has(s, u))
      && (if At(s, t).GetLocked? && s.count != 0 then
            Pool(s) == Pool(s') + [Has(s', t).GetOr(0)] && Has(s', t).Some? && Has(s, t).None?
          else if At(s, t).ReleaseStored? then
            Pool(s') == Pool(s) + [At(s, t).request] && Has(s', t).None?
          else Pool(s') == Pool(s))
      && (At(s, t).Creating? ==> Has(s', t) == Some(s.created))
      && (At(s, t).Destroying? || (At(s, t).GetLocked? && s.count == 0) ==> Has(s', t).None?)
      && (!At(s, t).GetLocked? && !At(s, t).ReleaseStored? && !At(s, t).Creating? && !At(s, t).Destroying?
          ==> Has(s', t) == Has(s, t))
  {
    var s' := Next(s, t, failed).value;
    assert Critical(At(s, t)) <==> s.mutex == Some(t);
    forall u: Thread | u != t ensures Has(s', u) == Has(s, u) {
      assert At(s', u) == At(s, u);
      assert Critical(At(s, u)) <==> s.mutex == Some(u);
    }
  }

  lemma StepFacts(s: State, t: Thread, failed: bool)
    requires Next(s, t, failed).Some?
    ensures At(s, t).GetLocked? || At(s, t).Creating? ==> Has(s, t).None?
    ensures At(s, t).ReleaseStored? || At(s, t).Destroying? ==> Has(s, t) == Some(At(s, t).request)
    ensures var s' := Next(s, t, failed).value;
      && s'.created == s.created + (if At(s, t).Creating? then 1 else 0)
      && s'.freed == (if At(s, t).Destroying? then s.freed + {At(s, t).request} else s.freed)
  {}

  /** A step moves at most one request, which thread t has before or afterwards. */
  datatype Move = Stay | Take(r: RequestId) | Give(r: RequestId) | Make | Drop(r: RequestId)

  /** What thread t moves, and where everything else is. */
  ghost predicate Moved(s: State, s': State, t: Thread, m: Move) {
    && (forall u: Thread {:trigger Has(s', u)} :: u != t ==> Has(s', u) == Has(s, u))
    && (match m
        case Stay => Has(s', t) == Has(s, t) && Pool(s') == Pool(s) && s'.freed == s.freed && s'.created == s.created
        case Take(r) => Has(s, t) == None && Has(s', t) == Some(r) && Pool(s) == Pool(s') + [r]
                        && s'.freed == s.freed && s'.created == s.created
        case Give(r) => Has(s, t) == Some(r) && Has(s', t) == None && Pool(s') == Pool(s) + [r]
                        && s'.freed == s.freed && s'.created == s.created
        case Make => Has(s, t) == None && Has(s', t) == Some(s.created) && Pool(s') == Pool(s)
                     && s'.freed == s.freed && s'.created == s.created + 1
        case Drop(r) => Has(s, t) == Some(r) && Has(s', t) == None && Pool(s') == Pool(s)
                        && s'.freed == s.freed + {r} && s'.created == s.created)
  }

  lemma StepIsMove(s: State, t: Thread, failed: bool) returns (m: Move)
    requires Exclusive(s) && InBounds(s) && Next(s, t, failed).Some?
    ensures Moved(s, Next(s, t, failed).value, t, m)
  {
    hide Next, At, Has, Pool, Exclusive, InBounds;
    StepMoves(s, t, failed);
    StepFacts(s, t, failed);
    var s' := Next(s, t, failed).value;
    m := if At(s, t).GetLocked? && s.count != 0 then Take(Has(s', t).value)
         else if At(s, t).ReleaseStored? then Give(At(s, t).request)
         else if At(s, t).Creating? then Make
         else if At(s, t).Destroying? then Drop(At(s, t).request)
         else Stay;
  }

  lemma MoveKeepsPool(s: State, s': State, t: Thread, m: Move)
    requires Moved(s, s', t, m) && Separate(s)
    ensures PoolDistinct(s') && PoolLive(s')
  {
    hide Has, Pool, OneOwner;
    forall i | 0 <= i < |Pool(s')| ensures Pool(s')[i] !in s'.freed && Pool(s')[i] < s'.created {
      if i < |Pool(s)| { assert Pool(s')[i] == Pool(s)[i] && Pool(s)[i] in Pool(s); }
    }
    if m.Give? {
      forall i | 0 <= i < |Pool(s)| ensures Pool(s')[i] == Pool(s)[i] != m.r {
        assert Pool(s)[i] in Pool(s);
      }
    } else {
      assert forall i :: 0 <= i < |Pool(s')| ==> Pool(s')[i] == Pool(s)[i];
    }
  }

  lemma MoveKeepsUse(s: State, s': State, t: Thread, m: Move)
    requires Moved(s, s', t, m) && Separate(s)
    ensures InUse(s')
  {
    hide Has, Pool;
    forall u: Thread | Has(s', u).Some?
      ensures Has(s', u).value !in Pool(s') && Has(s', u).value !in s'.freed && Has(s', u).value < s'.created
    {
      var r := Has(s', u).value;
      if u != t {
        assert Has(s', u) == Has(s, u) && Has(s, u) != Has(s, t);
        forall i | 0 <= i < |Pool(s')| ensures Pool(s')[i] != r {
          if i < |Pool(s)| { assert Pool(s')[i] == Pool(s)[i]; }
        }
      } else {
        match m
        case Stay =>
        case Take(_) =>
          assert Pool(s)[|Pool(s')|] == r && r in Pool(s);
          forall i | 0 <= i < |Pool(s')| ensures Pool(s')[i] != r {
            assert Pool(s)[i] == Pool(s')[i] && Pool(s)[i] != Pool(s)[|Pool(s')|];
          }
        case Make =>
          forall i | 0 <= i < |Pool(s)| ensures Pool(s)[i] != r {
          }
      }
    }
  }

  lemma MoveKeepsOwners(s: State, s': State, t: Thread, m: Move)
    requires Moved(s, s', t, m) && Separate(s)
    ensures OneOwner(s')
  {
    hide Has, Pool;
    forall u: Thread, v: Thread | u != v && Has(s', u).Some? ensures Has(s', u) != Has(s', v) {
      assert u != t ==> Has(s', u) == Has(s, u);
      assert v != t ==> Has(s', v) == Has(s, v);
      if m.Take? { assert Pool(s)[|Pool(s')|] == m.r && m.r in Pool(s); }
    }
  }

  lemma StepSeparate(s: State, t: Thread, failed: bool)
    requires Exclusive(s) && InBounds(s) && Separate(s) && Next(s, t, failed).Some?
    ensures Separate(Next(s, t, failed).value)
  {
    hide Next, Moved, PoolDistinct, InUse, OneOwner, PoolLive, Exclusive, InBounds;
    var m := StepIsMove(s, t, failed);
    var s' := Next(s, t, failed).value;
    MoveKeepsPool(s, s', t, m);
    MoveKeepsUse(s, s', t, m);
    MoveKeepsOwners(s, s', t, m);
  }

  lemma StepAccounted(s: State, t: Thread, failed: bool)
    requires Exclusive(s) && InBounds(s) && Accounted(s) && Next(s, t, failed).Some?
    ensures Accounted(Next(s, t, failed).value)
  {
    hide Next, At, Has, Pool, Exclusive, InBounds;
    var m := StepIsMove(s, t, failed);
    var s' := Next(s, t, failed).value;
    forall r: nat | r < s'.created
      ensures r in Pool(s') || r in s'.freed || exists u: Thread :: Has(s', u) == Some(r)
    {
      if r == s.created {
        assert Has(s', t) == Some(r);
      } else if r in Pool(s) {
        if m.Take? && r == m.r { assert Has(s', t) == Some(r); }
      } else if r !in s.freed {
        var u: Thread :| Has(s, u) == Some(r);
        if u != t {
          assert Has(s', u) == Some(r);
        } else if m.Give? {
          assert Pool(s')[|Pool(s)|] == r;
        } else if m.Stay? {
          assert Has(s', t) == Some(r);
        }
      }
    }
  }

  lemma StepInv(s: State, t: Thread, failed: bool)
    requires Inv(s) && Next(s, t, failed).Some?
    ensures Inv(Next(s, t, failed).value)
  {
    hide Next, Exclusive, InBounds, Separate, Accounted;
    StepExclusive(s, t, failed);
    StepInBounds(s, t, failed);
    StepSeparate(s, t, failed);
    StepAccounted(s, t, failed);
  }

  // ---------------------------------------------------------------- whole runs

  /** A choice of the scheduler: which thread moves, and whether its set-up fails. */
  datatype Choice = Choice(thread: Thread, failed: bool)

  /** The state after a schedule; a thread that cannot move is passed over. */
  function RunPool(s: State, schedule: seq<Choice>): State
    decreases |schedule|
  {
    if schedule == [] then s
    else
      var n := Next(s, schedule[0].thread, schedule[0].failed);
      RunPool(n.GetOr(s), schedule[1..])
  }

  lemma {:induction false} RunInv(s: State, schedule: seq<Choice>)
    requires Inv(s)
    ensures Inv(RunPool(s, schedule))
    decreases |schedule|
  {
    hide Next, Inv;
    if schedule != [] {
      var n := Next(s, schedule[0].thread, schedule[0].failed);
      if n.Some? { StepInv(s, schedule[0].thread, schedule[0].failed); }
      RunInv(n.GetOr(s), schedule[1..]);
    }
  }

  /** However any number of threads are interleaved: the count is within the array, pooled requests are
      distinct, no two threads have the same request, what a thread has is neither pooled nor freed,
      and no request is lost. */
  lemma PoolIsSafe(stack: seq<RequestId>, schedule: seq<Choice>)
    requires |stack| == STACK_SIZE
    ensures var s := RunPool(Initial(stack), schedule);
      && 0 <= s.count <= 32 == |s.stack|
      && (forall i, j :: 0 <= i < j < s.count ==> s.stack[i] != s.stack[j])
      && (forall t: Thread, u: Thread :: Has(s, t).Some? && Has(s, t) == Has(s, u) ==> t == u)
      && (forall t: Thread :: Has(s, t).Some? ==> Has(s, t).value !in s.stack[..s.count] && Has(s, t).value !in s.freed)
      && Accounted(s)
  {
    hide Next, Exclusive, Has, Accounted;
    InitialInv(stack);
    RunInv(Initial(stack), schedule);
    var s := RunPool(Initial(stack), schedule);
    assert Pool(s) == s.stack[..s.count];
    forall t: Thread, u: Thread | Has(s, t).Some? && Has(s, t) == Has(s, u) ensures t == u {
    }
  }

  /** The next step of t reads or writes the stack or its count, whether or not that changes them. */
  predicate Touches(s: State, t: Thread) {
    At(s, t).GetLocked? || At(s, t).GetPopped? || At(s, t).ReleaseLocked? || At(s, t).ReleaseStored?
  }

  /** These are all the accesses: any other step leaves the stack and its count as they are, and does the
      same whatever they are. */
  lemma OtherStepsDoNotAccess(s: State, t: Thread, failed: bool, stack: seq<RequestId>, count: int)
    requires !Touches(s, t)
    ensures var n, m := Next(s, t, failed), Next(s.(stack := stack, count := count), t, failed);
      && (n.None? ==> m.None?)
      && (n.Some? ==> && n.value.stack == s.stack && n.value.count == s.count
                      && m == Some(n.value.(stack := stack, count := count)))
  {}

  /** In every reachable state, only the thread that holds the mutex reads or writes the stack or its
      count. */
  lemma AccessUnderMutex(stack: seq<RequestId>, schedule: seq<Choice>, t: Thread, failed: bool)
    requires |stack| == STACK_SIZE
    ensures var s := RunPool(Initial(stack), schedule);
      && (Touches(s, t) ==> s.mutex == Some(t))
      && var n := Next(s, t, failed).GetOr(s);
         (n.stack != s.stack || n.count != s.count ==> s.mutex == Some(t))
  {
    hide InBounds, Separate, Accounted, RunPool;
    InitialInv(stack);
    RunInv(Initial(stack), schedule);
    var s := RunPool(Initial(stack), schedule);
    assert Critical(At(s, t)) <==> s.mutex == Some(t);
  }

  /** Seen from outside the mutex, getting a request takes the one that was given back last, and giving
      one back puts it on top; every other step leaves the pool alone. */
  lemma PoolIsStack(stack: seq<RequestId>, schedule: seq<Choice>, t: Thread, failed: bool)
    requires |stack| == STACK_SIZE
    ensures var s := RunPool(Initial(stack), schedule);
      var n := Next(s, t, failed).GetOr(s);
      || Pool(n) == Pool(s)
      || (Has(s, t).None? && Has(n, t).Some? && Pool(s) == Pool(n) + [Has(n, t).value])
      || (Has(s, t).Some? && Has(n, t).None? && Pool(n) == Pool(s) + [Has(s, t).value])
  {
    hide Next, At, Has, Pool, Exclusive, InBounds, Separate, Accounted, RunPool;
    InitialInv(stack);
    RunInv(Initial(stack), schedule);
    var s := RunPool(Initial(stack), schedule);
    if Next(s, t, failed).Some? {
      var m := StepIsMove(s, t, failed);
    }
  }

  /** Three steps of one thread. */
  function Thrice(s: State, t: Thread): State {
    RunPool(s, [Choice(t, false), Choice(t, false), Choice(t, false)])
  }

  lemma ThriceIs(s: State, t: Thread)
    requires Next(s, t, false).Some? && Next(Next(s, t, false).value, t, false).Some?
    requires Next(Next(Next(s, t, false).value, t, false).value, t, false).Some?
    ensures Thrice(s, t) == Next(Next(Next(s, t, false).value, t, false).value, t, false).value
  {
    hide Next;
    var c := Choice(t, false);
    var s1 := Next(s, t, false).value;
    var s2 := Next(s1, t, false).value;
    var s3 := Next(s2, t, false).value;
    assert [c, c, c][1..] == [c, c] && [c, c][1..] == [c] && [c][1..] == [];
    assert RunPool(s3, []) == s3 && RunPool(s2, [c]) == s3 && RunPool(s1, [c, c]) == s3;
  }

  /** A thread that holds the mutex to get a request has one after three steps of its own, and has given the
      mutex back: the one on top of the pool, or a new one when the pool is empty. */
  lemma GetComesBack(stack: seq<RequestId>, schedule: seq<Choice>, t: Thread)
    requires |stack| == STACK_SIZE
    ensures var s := RunPool(Initial(stack), schedule);
      At(s, t).GetLocked? ==>
        var n := Thrice(s, t);
        && At(n, t).Using? && n.mutex == None && n.freed == s.freed
        && (if s.count == 0 then At(n, t).request == s.created && n.created == s.created + 1 && Pool(n) == Pool(s)
            else n.created == s.created && Pool(s) == Pool(n) + [At(n, t).request])
  {
    hide RunPool, Exclusive, Separate, Accounted;
    InitialInv(stack);
    RunInv(Initial(stack), schedule);
    var s := RunPool(Initial(stack), schedule);
    if At(s, t).GetLocked? { ThriceIs(s, t); }
  }

  /** A thread that holds the mutex to give a request back is done after three steps of its own: the request
      is on top of the pool, or freed when the pool is full. */
  lemma ReleaseComesBack(stack: seq<RequestId>, schedule: seq<Choice>, t: Thread)
    requires |stack| == STACK_SIZE
    ensures var s := RunPool(Initial(stack), schedule);
      At(s, t).ReleaseLocked? ==>
        var n := Thrice(s, t);
        && At(n, t).Outside? && n.mutex == None && n.created == s.created
        && (if s.count == 32 then n.freed == s.freed + {At(s, t).request} && Pool(n) == Pool(s)
            else n.freed == s.freed && Pool(n) == Pool(s) + [At(s, t).request])
  {
    hide RunPool, Exclusive, Separate, Accounted;
    InitialInv(stack);
    RunInv(Initial(stack), schedule);
    var s := RunPool(Initial(stack), schedule);
    if At(s, t).ReleaseLocked? { ThriceIs(s, t); }
  }

  /** A thread inside a critical section is never stuck: it can always move on and give the mutex back. */
  lemma CriticalMovesOn(s: State, t: Thread, failed: bool)
    requires Inv(s) && Critical(At(s, t))
    ensures Next(s, t, failed).Some?
  {
    hide Separate, Accounted;
    assert At(s, t).GetPopped? ==> s.count < STACK_SIZE;
  }

  // ---------------------------------------------------------------- the critical sections in memory

  /** requestStackG and requestStackCountG, as one thread sees them while it holds the mutex. */
  class RequestStack {
    const requestStack: array<RequestId>
    var count: nat

    ghost predicate Valid()
      reads this
    {
      requestStack.Length == STACK_SIZE && count <= STACK_SIZE
    }

    ghost function Contents(): seq<RequestId>
      reads this, requestStack
      requires Valid()
    {
      requestStack[..count]
    }

    constructor ()
      ensures Valid() && Contents() == [] && fresh(requestStack)
    {
      requestStack := new RequestId[STACK_SIZE];
      count := 0;
    }

    /** The critical section of request_get. */
    method Take() returns (request: Option<RequestId>)
      requires Valid()
      modifies this
      ensures Valid()
      ensures if old(Contents()) == [] then request == None && Contents() == []
              else request.Some? && old(Contents()) == Contents() + [request.value]
    {
      request := None;
      if count != 0 {
        count := count - 1;
        request := Some(requestStack[count]);
      }
    }

    /** The critical section of request_release; a request that finds the stack full is to be destroyed. */
    method Put(request: RequestId) returns (full: bool)
      requires Valid()
      modifies this, requestStack
      ensures Valid() && full == (|old(Contents())| == STACK_SIZE)
      ensures Contents() == if full then old(Contents()) else old(Contents()) + [request]
    {
      full := count == STACK_SIZE;
      if !full {
        requestStack[count] := request;
        count := count + 1;
      }
    }
  }
}
