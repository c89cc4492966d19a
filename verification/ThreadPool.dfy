/** The worker pool of threadpool.c as a step system: one action per statement that touches
  * shared state, any interleaving of workers, submitters and the destroyer, spurious wakeups
  * included. Node addresses are positive integers, 0 is NULL.
  *
  * The use the pool is made for is built into when actions are enabled: nobody submits once
  * destroy has been called, and destroy is called when no submit is in progress.
  */
module ThreadPool {
  import opened Options

  datatype Item = Item(fn: int, arg: int)

  datatype Node = Node(item: Item, next: int)

  /** Where a worker is in worker_thread. A ticket is the position of an item among all items
    * submitted so far; it only serves to tell items apart.
    */
  datatype Worker =
    | AtLock                          // about to lock, at the top of the loop
    | Testing                         // holds the mutex, at the wait loop's condition
    | Waiting                         // inside pthread_cond_wait, mutex released
    | Awakened                        // woken, about to take the mutex again
    | Deciding                        // holds the mutex, past the wait loop
    | Popped(node: int, ticket: nat)  // holds the mutex, work_head moved on
    | Leaving(node: int, ticket: nat) // holds the mutex, work_tail repaired
    | Running(node: int, ticket: nat) // calls fn and frees the node
    | Exiting                         // holds the mutex, about to leave the loop
    | Exited

  /** Where a client thread is in fgrep_threadpool_submit. */
  datatype Client =
    | Outside
    | Filled(node: int)               // node allocated and filled
    | Entered(node: int)              // holds the mutex
    | Linked(node: int)               // list extended
    | Tailed                          // work_tail moved
    | Signalled                       // condition signalled

  /** Where the owner is in fgrep_threadpool_destroy. */
  datatype Owner = NotCalled | HoldsLock | FlagSet | Broadcasted | Joining(joined: nat) | Done

  datatype Holder = Nobody | ByWorker(w: nat) | ByClient(c: nat) | ByOwner

  /** One call of fn. */
  datatype Run = Run(worker: nat, ticket: nat, item: Item)

  /** What became of a dequeued item: a worker has it, or it was the k-th call made. */
  datatype Fate = InHands(worker: nat) | Called(k: nat)

  datatype State = State(
    heap: map<int, Node>,
    head: int,
    tail: int,
    shutdown: bool,
    mutex: Holder,
    workers: seq<Worker>,
    clients: seq<Client>,
    owner: Owner,
    // history: the linked nodes in order, what was submitted and dequeued, every call of fn, and
    // what became of each dequeued item
    queue: seq<int>,
    submitted: seq<Item>,
    dequeued: seq<Item>,
    runs: seq<Run>,
    fates: seq<Fate>)

  /** A pool just created with n workers, used by m client threads. */
  function Init(n: nat, m: nat): State {
    State(map[], 0, 0, false, Nobody, seq(n, _ => AtLock), seq(m, _ => Outside), NotCalled, [], [], [], [], [])
  }

  // ----- worker_thread ---------------------------------------------------------------------

  ghost predicate WorkerLock(s: State, w: nat, s': State) {
    && w < |s.workers| && s.mutex == Nobody && (s.workers[w].AtLock? || s.workers[w].Awakened?)
    && s' == s.(mutex := ByWorker(w), workers := s.workers[w := Testing])
  }

  /** The wait loop's condition: wait, which releases the mutex, or go on. */
  ghost predicate WorkerTest(s: State, w: nat, s': State) {
    && w < |s.workers| && s.workers[w].Testing?
    && s' == if s.head == 0 && !s.shutdown then s.(mutex := Nobody, workers := s.workers[w := Waiting])
             else s.(workers := s.workers[w := Deciding])
  }

  ghost predicate SpuriousWakeup(s: State, w: nat, s': State) {
    && w < |s.workers| && s.workers[w].Waiting?
    && s' == s.(workers := s.workers[w := Awakened])
  }

  ghost predicate WorkerQuit(s: State, w: nat, s': State) {
    && w < |s.workers| && s.workers[w].Deciding? && s.shutdown && s.head == 0
    && s' == s.(workers := s.workers[w := Exiting])
  }

  /** Take the first node. That there is one is an invariant, not a test. */
  ghost predicate WorkerPop(s: State, w: nat, s': State) {
    && w < |s.workers| && s.workers[w].Deciding? && !(s.shutdown && s.head == 0)
    && s.head in s.heap && s.queue != []
    && s' == s.(head := s.heap[s.head].next,
                workers := s.workers[w := Popped(s.head, |s.dequeued|)],
                queue := s.queue[1..],
                dequeued := s.dequeued + [s.heap[s.head].item],
                fates := s.fates + [InHands(w)])
  }

  ghost predicate WorkerFixTail(s: State, w: nat, s': State) {
    && w < |s.workers| && s.workers[w].Popped?
    && s' == s.(tail := if s.head == 0 then 0 else s.tail,
                workers := s.workers[w := Leaving(s.workers[w].node, s.workers[w].ticket)])
  }

  ghost predicate WorkerUnlock(s: State, w: nat, s': State) {
    && w < |s.workers| && s.workers[w].Leaving?
    && s' == s.(mutex := Nobody, workers := s.workers[w := Running(s.workers[w].node, s.workers[w].ticket)])
  }

  /** Call fn on the item, then free the node. */
  ghost predicate WorkerRun(s: State, w: nat, s': State) {
    && w < |s.workers| && s.workers[w].Running?
    && s.workers[w].node in s.heap && s.workers[w].ticket < |s.fates|
    && s' == s.(heap := s.heap - {s.workers[w].node},
                workers := s.workers[w := AtLock],
                runs := s.runs + [Run(w, s.workers[w].ticket, s.heap[s.workers[w].node].item)],
                fates := s.fates[s.workers[w].ticket := Called(|s.runs|)])
  }

  ghost predicate WorkerExit(s: State, w: nat, s': State) {
    && w < |s.workers| && s.workers[w].Exiting?
    && s' == s.(mutex := Nobody, workers := s.workers[w := Exited])
  }

  // ----- fgrep_threadpool_submit -----------------------------------------------------------

  ghost predicate ClientFill(s: State, c: nat, node: int, item: Item, s': State) {
    && c < |s.clients| && s.clients[c].Outside? && s.owner.NotCalled? && node != 0 && node !in s.heap
    && s' == s.(heap := s.heap[node := Node(item, 0)], clients := s.clients[c := Filled(node)])
  }

  ghost predicate ClientLock(s: State, c: nat, s': State) {
    && c < |s.clients| && s.clients[c].Filled? && s.mutex == Nobody
    && s' == s.(mutex := ByClient(c), clients := s.clients[c := Entered(s.clients[c].node)])
  }

  /** Link the node behind work_tail, or make it work_head. */
  ghost predicate ClientLink(s: State, c: nat, s': State) {
    && c < |s.clients| && s.clients[c].Entered? && s.clients[c].node in s.heap
    && (s.tail == 0 || s.tail in s.heap)
    && var node := s.clients[c].node;
       s' == s.(heap := if s.tail != 0 then s.heap[s.tail := s.heap[s.tail].(next := node)] else s.heap,
                head := if s.tail != 0 then s.head else node,
                clients := s.clients[c := Linked(node)],
                queue := s.queue + [node],
                submitted := s.submitted + [s.heap[node].item])
  }

  ghost predicate ClientTail(s: State, c: nat, s': State) {
    && c < |s.clients| && s.clients[c].Linked?
    && s' == s.(tail := s.clients[c].node, clients := s.clients[c := Tailed])
  }

  /** pthread_cond_signal wakes at least one waiter, if there is any. */
  ghost predicate ClientSignal(s: State, c: nat, woken: set<nat>, s': State) {
    && c < |s.clients| && s.clients[c].Tailed?
    && (forall w | w in woken :: w < |s.workers| && s.workers[w].Waiting?)
    && (woken == {} ==> forall w | 0 <= w < |s.workers| :: !s.workers[w].Waiting?)
    && s' == s.(workers := Wake(s.workers, woken), clients := s.clients[c := Signalled])
  }

  ghost predicate ClientUnlock(s: State, c: nat, s': State) {
    && c < |s.clients| && s.clients[c].Signalled?
    && s' == s.(mutex := Nobody, clients := s.clients[c := Outside])
  }

  ghost function Wake(workers: seq<Worker>, woken: set<nat>): (r: seq<Worker>)
    ensures |r| == |workers|
    ensures forall w: nat | w < |r| :: r[w] == if w in woken then Awakened else workers[w]
  {
    seq(|workers|, w requires 0 <= w < |workers| => if w in woken then Awakened else workers[w])
  }

  // ----- fgrep_threadpool_destroy ----------------------------------------------------------

  ghost predicate OwnerLock(s: State, s': State) {
    && s.owner.NotCalled? && s.mutex == Nobody && (forall c | 0 <= c < |s.clients| :: s.clients[c].Outside?)
    && s' == s.(mutex := ByOwner, owner := HoldsLock)
  }

  ghost predicate OwnerSetFlag(s: State, s': State) {
    && s.owner.HoldsLock?
    && s' == s.(shutdown := true, owner := FlagSet)
  }

  ghost predicate OwnerBroadcast(s: State, s': State) {
    && s.owner.FlagSet?
    && s' == s.(workers := Wake(s.workers, set w: nat | w < |s.workers| && s.workers[w].Waiting?), owner := Broadcasted)
  }

  ghost predicate OwnerUnlock(s: State, s': State) {
    && s.owner.Broadcasted?
    && s' == s.(mutex := Nobody, owner := Joining(0))
  }

  ghost predicate OwnerJoin(s: State, s': State) {
    && s.owner.Joining? && s.owner.joined < |s.workers| && s.workers[s.owner.joined].Exited?
    && s' == s.(owner := Joining(s.owner.joined + 1))
  }

  /** Free whatever is still linked, after all joins. */
  ghost predicate OwnerDrain(s: State, s': State) {
    && s.owner.Joining? && s.owner.joined == |s.workers|
    && s' == s.(heap := s.heap - (set n | n in s.queue), head := 0, tail := 0, queue := [], owner := Done)
  }

  // ----- the step system -------------------------------------------------------------------

  datatype Action =
    | ALock(w: nat) | ATest(w: nat) | ASpurious(w: nat) | AQuit(w: nat) | APop(w: nat) | AFixTail(w: nat)
    | AUnlock(w: nat) | ARun(w: nat) | AExit(w: nat)
    | AFill(c: nat, node: int, item: Item) | AClientLock(c: nat) | ALink(c: nat) | ATail(c: nat)
    | ASignal(c: nat, woken: set<nat>) | AClientUnlock(c: nat)
    | AOwnerLock | ASetFlag | ABroadcast | AOwnerUnlock | AJoin | ADrain

  ghost predicate Step(s: State, a: Action, s': State) {
    match a
    case ALock(w) => WorkerLock(s, w, s')
    case ATest(w) => WorkerTest(s, w, s')
    case ASpurious(w) => SpuriousWakeup(s, w, s')
    case AQuit(w) => WorkerQuit(s, w, s')
    case APop(w) => WorkerPop(s, w, s')
    case AFixTail(w) => WorkerFixTail(s, w, s')
    case AUnlock(w) => WorkerUnlock(s, w, s')
    case ARun(w) => WorkerRun(s, w, s')
    case AExit(w) => WorkerExit(s, w, s')
    case AFill(c, node, item) => ClientFill(s, c, node, item, s')
    case AClientLock(c) => ClientLock(s, c, s')
    case ALink(c) => ClientLink(s, c, s')
    case ATail(c) => ClientTail(s, c, s')
    case ASignal(c, woken) => ClientSignal(s, c, woken, s')
    case AClientUnlock(c) => ClientUnlock(s, c, s')
    case AOwnerLock => OwnerLock(s, s')
    case ASetFlag => OwnerSetFlag(s, s')
    case ABroadcast => OwnerBroadcast(s, s')
    case AOwnerUnlock => OwnerUnlock(s, s')
    case AJoin => OwnerJoin(s, s')
    case ADrain => OwnerDrain(s, s')
  }

  // ----- what every reachable state keeps --------------------------------------------------

  /** The nodes linked from head are exactly queue, in order, and the last one ends the list. */
  ghost predicate IsList(heap: map<int, Node>, head: int, queue: seq<int>) {
    && head == First(queue, 0)
    && (forall i | 0 <= i < |queue| ::
          queue[i] != 0 && queue[i] in heap && heap[queue[i]].next == First(queue, i + 1))
    && (forall i, j | 0 <= i < j < |queue| :: queue[i] != queue[j])
  }

  ghost function First(queue: seq<int>, i: nat): int {
    if i < |queue| then queue[i] else 0
  }

  ghost function Last(queue: seq<int>): int {
    if queue == [] then 0 else queue[|queue| - 1]
  }

  ghost predicate Carries(w: Worker) {
    w.Popped? || w.Leaving? || w.Running?
  }

  ghost predicate Prepares(c: Client) {
    c.Filled? || c.Entered?
  }

  /** The worker is in the critical section. */
  ghost predicate WorkerHolds(w: Worker) {
    w.Testing? || w.Deciding? || w.Popped? || w.Leaving? || w.Exiting?
  }

  ghost predicate ClientHolds(c: Client) {
    c.Entered? || c.Linked? || c.Tailed? || c.Signalled?
  }

  ghost predicate OwnerHolds(o: Owner) {
    o.HoldsLock? || o.FlagSet? || o.Broadcasted?
  }

  /** Mutual exclusion: whoever is in a critical section is the holder. */
  ghost predicate MutexInv(s: State) {
    && (forall w | 0 <= w < |s.workers| :: WorkerHolds(s.workers[w]) <==> s.mutex == ByWorker(w))
    && (forall c | 0 <= c < |s.clients| :: ClientHolds(s.clients[c]) <==> s.mutex == ByClient(c))
    && (OwnerHolds(s.owner) <==> s.mutex == ByOwner)
    && (s.mutex.ByWorker? ==> s.mutex.w < |s.workers|)
    && (s.mutex.ByClient? ==> s.mutex.c < |s.clients|)
  }

  /** The list is well formed, work_tail is its last node except while a submitter is between
    * linking and moving it, or a worker between unlinking and repairing it.
    */
  ghost predicate ListInv(s: State) {
    && IsList(s.heap, s.head, s.queue)
    && (s.mutex.ByClient? && s.mutex.c < |s.clients| && s.clients[s.mutex.c].Linked? ==>
          s.queue != [] && s.clients[s.mutex.c].node == Last(s.queue))
    && (s.mutex.ByWorker? && s.mutex.w < |s.workers| && s.workers[s.mutex.w].Popped? ==>
          s.queue == [] || s.tail == Last(s.queue))
    && (!(s.mutex.ByClient? && s.mutex.c < |s.clients| && s.clients[s.mutex.c].Linked?)
        && !(s.mutex.ByWorker? && s.mutex.w < |s.workers| && s.workers[s.mutex.w].Popped?) ==>
          s.tail == Last(s.queue))
    && (forall w | 0 <= w < |s.workers| && s.workers[w].Deciding? :: s.shutdown || s.queue != [])
  }

  /** Every node belongs to one party: the list, one submitter, or one worker. */
  ghost predicate OwnershipInv(s: State) {
    && (forall w | 0 <= w < |s.workers| && Carries(s.workers[w]) ::
          s.workers[w].node in s.heap && s.workers[w].node !in s.queue)
    && (forall c | 0 <= c < |s.clients| && Prepares(s.clients[c]) ::
          && s.clients[c].node in s.heap && s.clients[c].node !in s.queue
          && s.clients[c].node != 0 && s.heap[s.clients[c].node].next == 0)
    && (forall w, v | 0 <= w < v < |s.workers| && Carries(s.workers[w]) && Carries(s.workers[v]) ::
          s.workers[w].node != s.workers[v].node)
    && (forall c, e | 0 <= c < e < |s.clients| && Prepares(s.clients[c]) && Prepares(s.clients[e]) ::
          s.clients[c].node != s.clients[e].node)
    && (forall w, c | 0 <= w < |s.workers| && 0 <= c < |s.clients| && Carries(s.workers[w]) && Prepares(s.clients[c]) ::
          s.workers[w].node != s.clients[c].node)
  }

  ghost function Items(heap: map<int, Node>, queue: seq<int>): seq<Item>
    requires forall i | 0 <= i < |queue| :: queue[i] in heap
  {
    seq(|queue|, i requires 0 <= i < |queue| => heap[queue[i]].item)
  }

  /** First in, first out: what was submitted is what was dequeued, then what is linked. */
  ghost predicate FifoInv(s: State) {
    && (forall i | 0 <= i < |s.queue| :: s.queue[i] in s.heap)
    && s.submitted == s.dequeued + Items(s.heap, s.queue)
  }

  /** Exactly once: a dequeued item is in the hands of one worker or has been run, never both
    * and never twice, and it is run as it was submitted.
    */
  ghost predicate OnceInv(s: State) {
    && |s.fates| == |s.dequeued|
    && (forall w | 0 <= w < |s.workers| && Carries(s.workers[w]) ::
          && s.workers[w].ticket < |s.fates| && s.fates[s.workers[w].ticket] == InHands(w)
          && s.workers[w].node in s.heap && s.heap[s.workers[w].node].item == s.dequeued[s.workers[w].ticket])
    && (forall k | 0 <= k < |s.runs| ::
          && s.runs[k].ticket < |s.fates| && s.fates[s.runs[k].ticket] == Called(k)
          && s.runs[k].item == s.dequeued[s.runs[k].ticket])
    && (forall t | 0 <= t < |s.fates| ::
          match s.fates[t]
          case InHands(w) => w < |s.workers| && Carries(s.workers[w]) && s.workers[w].ticket == t
          case Called(k) => k < |s.runs| && s.runs[k].ticket == t)
  }

  ghost predicate IsActive(w: Worker) {
    !w.Waiting? && !w.Exited?
  }

  ghost predicate HasActive(workers: seq<Worker>) {
    exists w | 0 <= w < |workers| :: IsActive(workers[w])
  }

  /** The holder is a submitter that has extended the list and has not signalled yet. */
  ghost predicate AboutToSignal(s: State) {
    && s.mutex.ByClient? && s.mutex.c < |s.clients|
    && (s.clients[s.mutex.c].Linked? || s.clients[s.mutex.c].Tailed?)
  }

  /** No lost wakeup: linked work means an active worker, or one about to be woken. */
  ghost predicate WakeInv(s: State) {
    && |s.workers| > 0
    && (s.queue != [] ==> AboutToSignal(s) || HasActive(s.workers))
  }

  /** How shutdown proceeds. */
  ghost predicate ShutdownInv(s: State) {
    && (s.shutdown <==> !s.owner.NotCalled? && !s.owner.HoldsLock?)
    && (!s.owner.NotCalled? ==> forall c | 0 <= c < |s.clients| :: s.clients[c].Outside?)
    && (forall w | 0 <= w < |s.workers| && (s.workers[w].Exiting? || s.workers[w].Exited?) ::
          s.shutdown && s.queue == [])
    && (s.shutdown && !s.owner.FlagSet? ==> forall w | 0 <= w < |s.workers| :: !s.workers[w].Waiting?)
    && (s.owner.Joining? ==>
          s.owner.joined <= |s.workers| && forall w | 0 <= w < s.owner.joined :: s.workers[w].Exited?)
    && (s.owner.Done? ==> s.queue == [] && forall w | 0 <= w < |s.workers| :: s.workers[w].Exited?)
  }

  ghost predicate Inv(s: State) {
    && MutexInv(s) && ListInv(s) && OwnershipInv(s) && FifoInv(s) && OnceInv(s)
    && WakeInv(s) && ShutdownInv(s)
  }

  // ----- every step keeps the invariant -----------------------------------------------------

  lemma WorkerLockKeepsInv(s: State, w: nat, s': State)
    requires Inv(s) && WorkerLock(s, w, s')
    ensures Inv(s')
  {
    hide IsList, Items, First, Last, Prepares, ClientHolds, OwnerHolds;
    assert IsActive(s'.workers[w]) || s'.queue == [];
  }

  lemma SpuriousWakeupKeepsInv(s: State, w: nat, s': State)
    requires Inv(s) && SpuriousWakeup(s, w, s')
    ensures Inv(s')
  {
    hide IsList, Items, First, Last, Prepares, ClientHolds, OwnerHolds;
    assert IsActive(s'.workers[w]) || s'.queue == [];
  }

  lemma WorkerQuitKeepsInv(s: State, w: nat, s': State)
    requires Inv(s) && WorkerQuit(s, w, s')
    ensures Inv(s')
  {
    hide Items, Last, Prepares, ClientHolds, OwnerHolds;
    assert IsActive(s'.workers[w]) || s'.queue == [];
  }

  lemma WorkerFixTailKeepsInv(s: State, w: nat, s': State)
    requires Inv(s) && WorkerFixTail(s, w, s')
    ensures Inv(s')
  {
    hide Items, Prepares, ClientHolds, OwnerHolds;
    assert IsActive(s'.workers[w]) || s'.queue == [];
  }

  lemma WorkerUnlockKeepsInv(s: State, w: nat, s': State)
    requires Inv(s) && WorkerUnlock(s, w, s')
    ensures Inv(s')
  {
    hide IsList, Items, First, Last, Prepares, ClientHolds, OwnerHolds;
    assert IsActive(s'.workers[w]) || s'.queue == [];
  }

  lemma WorkerExitKeepsInv(s: State, w: nat, s': State)
    requires Inv(s) && WorkerExit(s, w, s')
    ensures Inv(s')
  {
    hide IsList, Items, First, Last, Prepares, ClientHolds, OwnerHolds;
    assert IsActive(s'.workers[w]) || s'.queue == [];
  }

  lemma WorkerTestKeepsStructure(s: State, w: nat, s': State)
    requires Inv(s) && WorkerTest(s, w, s')
    ensures MutexInv(s') && ListInv(s') && OwnershipInv(s') && FifoInv(s')
  {
    hide OnceInv, WakeInv;
  }

  lemma WorkerTestKeepsInv(s: State, w: nat, s': State)
    requires Inv(s) && WorkerTest(s, w, s')
    ensures Inv(s')
  {
    hide MutexInv, FifoInv;
    WorkerTestKeepsStructure(s, w, s');
    assert IsActive(s'.workers[w]) || s'.queue == [];
  }

  lemma WorkerPopKeepsStructure(s: State, w: nat, s': State)
    requires Inv(s) && WorkerPop(s, w, s')
    ensures MutexInv(s') && ListInv(s') && OwnershipInv(s') && FifoInv(s')
  {
    hide Inv, MutexInv, ListInv, OwnershipInv, FifoInv, WorkerPop;
    WorkerPopKeepsList(s, w, s');
    WorkerPopKeepsOwnership(s, w, s');
  }

  lemma WorkerPopKeepsList(s: State, w: nat, s': State)
    requires Inv(s) && WorkerPop(s, w, s')
    ensures MutexInv(s') && ListInv(s') && FifoInv(s')
  {
    hide OwnershipInv, OnceInv, WakeInv;
  }

  lemma WorkerPopKeepsOwnership(s: State, w: nat, s': State)
    requires Inv(s) && WorkerPop(s, w, s')
    ensures OwnershipInv(s')
  {
    hide MutexInv, FifoInv, OnceInv, WakeInv, ShutdownInv;
  }

  lemma WorkerPopKeepsInv(s: State, w: nat, s': State)
    requires Inv(s) && WorkerPop(s, w, s')
    ensures Inv(s')
  {
    hide MutexInv, ListInv, FifoInv;
    WorkerPopKeepsStructure(s, w, s');
    assert IsActive(s'.workers[w]) || s'.queue == [];
  }

  lemma WorkerRunKeepsStructure(s: State, w: nat, s': State)
    requires Inv(s) && WorkerRun(s, w, s')
    ensures MutexInv(s') && ListInv(s') && OwnershipInv(s') && FifoInv(s')
  {
    hide OnceInv, WakeInv;
  }

  lemma WorkerRunKeepsInv(s: State, w: nat, s': State)
    requires Inv(s) && WorkerRun(s, w, s')
    ensures Inv(s')
  {
    hide MutexInv, ListInv, FifoInv;
    WorkerRunKeepsStructure(s, w, s');
    assert IsActive(s'.workers[w]) || s'.queue == [];
  }

  lemma ClientLockKeepsInv(s: State, c: nat, s': State)
    requires Inv(s) && ClientLock(s, c, s')
    ensures Inv(s')
  {
  }

  lemma ClientLinkKeepsInv(s: State, c: nat, s': State)
    requires Inv(s) && ClientLink(s, c, s')
    ensures Inv(s')
  {
    hide OwnerHolds, IsActive, Carries;
  }

  lemma ClientTailKeepsInv(s: State, c: nat, s': State)
    requires Inv(s) && ClientTail(s, c, s')
    ensures Inv(s')
  {
  }

  lemma ClientUnlockKeepsInv(s: State, c: nat, s': State)
    requires Inv(s) && ClientUnlock(s, c, s')
    ensures Inv(s')
  {
  }

  lemma ClientFillKeepsInv(s: State, c: nat, node: int, item: Item, s': State)
    requires Inv(s) && ClientFill(s, c, node, item, s')
    ensures Inv(s')
  {
    hide WorkerHolds, OwnerHolds, Last;
  }

  lemma ClientSignalKeepsInv(s: State, c: nat, woken: set<nat>, s': State)
    requires Inv(s) && ClientSignal(s, c, woken, s')
    ensures Inv(s')
  {
    hide IsList, Items, First, Last, OwnerHolds;
    if w :| w in woken {
      assert IsActive(s'.workers[w]);
    } else {
      assert IsActive(s'.workers[0]);
    }
  }

  lemma OwnerLockKeepsInv(s: State, s': State)
    requires Inv(s) && OwnerLock(s, s')
    ensures Inv(s')
  {
  }

  lemma OwnerSetFlagKeepsInv(s: State, s': State)
    requires Inv(s) && OwnerSetFlag(s, s')
    ensures Inv(s')
  {
  }

  lemma OwnerBroadcastKeepsInv(s: State, s': State)
    requires Inv(s) && OwnerBroadcast(s, s')
    ensures Inv(s')
  {
    hide IsList, Items, First, Last, Prepares, ClientHolds;
    if HasActive(s.workers) {
      var v :| 0 <= v < |s.workers| && IsActive(s.workers[v]);
      assert IsActive(s'.workers[v]);
    }
  }

  lemma OwnerUnlockKeepsInv(s: State, s': State)
    requires Inv(s) && OwnerUnlock(s, s')
    ensures Inv(s')
  {
  }

  lemma OwnerJoinKeepsInv(s: State, s': State)
    requires Inv(s) && OwnerJoin(s, s')
    ensures Inv(s')
  {
    hide IsList, Items, First, Last, Prepares, Carries, WorkerHolds, ClientHolds;
  }

  lemma OwnerDrainKeepsInv(s: State, s': State)
    requires Inv(s) && OwnerDrain(s, s')
    ensures Inv(s')
  {
  }

  // ----- whole runs ------------------------------------------------------------------------

  lemma InitInv(n: nat, m: nat)
    requires n > 0
    ensures Inv(Init(n, m))
  {
    hide WorkerHolds, ClientHolds, OwnerHolds, Carries, Prepares;
    InitHoldsNothing(n, m);
  }

  lemma InitHoldsNothing(n: nat, m: nat)
    ensures forall w | 0 <= w < n :: !WorkerHolds(Init(n, m).workers[w]) && !Carries(Init(n, m).workers[w])
    ensures forall c | 0 <= c < m :: !ClientHolds(Init(n, m).clients[c]) && !Prepares(Init(n, m).clients[c])
    ensures !OwnerHolds(Init(n, m).owner)
  {
  }

  /** Every step of every interleaving keeps the invariant. */
  lemma StepKeepsInv(s: State, a: Action, s': State)
    requires Inv(s) && Step(s, a, s')
    ensures Inv(s')
  {
    hide Inv, WorkerLock, WorkerTest, SpuriousWakeup, WorkerQuit, WorkerPop, WorkerFixTail, WorkerUnlock, WorkerRun,
         WorkerExit, ClientFill, ClientLock, ClientLink, ClientTail, ClientSignal, ClientUnlock, OwnerLock,
         OwnerSetFlag, OwnerBroadcast, OwnerUnlock, OwnerJoin, OwnerDrain;
    match a
    case ALock(w) => WorkerLockKeepsInv(s, w, s');
    case ATest(w) => WorkerTestKeepsInv(s, w, s');
    case ASpurious(w) => SpuriousWakeupKeepsInv(s, w, s');
    case AQuit(w) => WorkerQuitKeepsInv(s, w, s');
    case APop(w) => WorkerPopKeepsInv(s, w, s');
    case AFixTail(w) => WorkerFixTailKeepsInv(s, w, s');
    case AUnlock(w) => WorkerUnlockKeepsInv(s, w, s');
    case ARun(w) => WorkerRunKeepsInv(s, w, s');
    case AExit(w) => WorkerExitKeepsInv(s, w, s');
    case AFill(c, node, item) => ClientFillKeepsInv(s, c, node, item, s');
    case AClientLock(c) => ClientLockKeepsInv(s, c, s');
    case ALink(c) => ClientLinkKeepsInv(s, c, s');
    case ATail(c) => ClientTailKeepsInv(s, c, s');
    case ASignal(c, woken) => ClientSignalKeepsInv(s, c, woken, s');
    case AClientUnlock(c) => ClientUnlockKeepsInv(s, c, s');
    case AOwnerLock => OwnerLockKeepsInv(s, s');
    case ASetFlag => OwnerSetFlagKeepsInv(s, s');
    case ABroadcast => OwnerBroadcastKeepsInv(s, s');
    case AOwnerUnlock => OwnerUnlockKeepsInv(s, s');
    case AJoin => OwnerJoinKeepsInv(s, s');
    case ADrain => OwnerDrainKeepsInv(s, s');
  }

  /** A run: states linked by steps. */
  ghost predicate IsRun(states: seq<State>) {
    && states != []
    && forall i | 0 <= i < |states| - 1 :: HasStep(states[i], states[i + 1])
  }

  ghost predicate HasStep(s: State, s': State) {
    exists a :: Step(s, a, s')
  }

  lemma {:induction false} RunKeepsInv(states: seq<State>, i: nat)
    requires IsRun(states) && Inv(states[0]) && i < |states|
    ensures Inv(states[i])
  {
    hide Inv, Step;
    if i > 0 {
      RunKeepsInv(states, i - 1);
      assert HasStep(states[i - 1], states[i - 1 + 1]);
      var a :| Step(states[i - 1], a, states[i]);
      StepKeepsInv(states[i - 1], a, states[i]);
    }
  }

  /** Reachable from a pool of n workers and m clients. */
  ghost predicate Reachable(n: nat, m: nat, s: State) {
    exists states :: IsRun(states) && states[0] == Init(n, m) && states[|states| - 1] == s
  }

  lemma ReachableInv(n: nat, m: nat, s: State)
    requires n > 0 && Reachable(n, m, s)
    ensures Inv(s)
  {
    hide Inv;
    var states :| IsRun(states) && states[0] == Init(n, m) && states[|states| - 1] == s;
    InitInv(n, m);
    RunKeepsInv(states, |states| - 1);
  }

  /** First in, first out and exactly once, in every reachable state: the nodes linked from
    * work_head are, in order, what was submitted and not yet dequeued; work_tail is the last of
    * them whenever nobody holds the mutex; every call of fn is of an item as submitted, no item is
    * called twice, and none is lost: what was dequeued is with one worker or has been called.
    */
  lemma FifoExactlyOnce(n: nat, m: nat, s: State)
    requires n > 0 && Reachable(n, m, s)
    ensures IsList(s.heap, s.head, s.queue)
    ensures s.submitted == s.dequeued + Items(s.heap, s.queue)
    ensures s.mutex == Nobody ==> s.tail == Last(s.queue)
    ensures forall k | 0 <= k < |s.runs| ::
      s.runs[k].ticket < |s.dequeued| && s.runs[k].item == s.submitted[s.runs[k].ticket]
    ensures forall k, l | 0 <= k < l < |s.runs| :: s.runs[k].ticket != s.runs[l].ticket
    ensures forall k, w | 0 <= k < |s.runs| && 0 <= w < |s.workers| && Carries(s.workers[w]) ::
      s.runs[k].ticket != s.workers[w].ticket
    ensures forall v, w | 0 <= v < w < |s.workers| && Carries(s.workers[v]) && Carries(s.workers[w]) ::
      s.workers[v].ticket != s.workers[w].ticket
    ensures forall t | 0 <= t < |s.dequeued| :: IsCarried(s, t) || IsCalled(s, t)
  {
    ReachableInv(n, m, s);
    forall t | 0 <= t < |s.dequeued| ensures IsCarried(s, t) || IsCalled(s, t) {
      assert s.fates[t].InHands? || s.fates[t].Called?;
    }
  }

  ghost predicate IsCarried(s: State, t: nat) {
    exists w | 0 <= w < |s.workers| :: Carries(s.workers[w]) && s.workers[w].ticket == t
  }

  ghost predicate IsCalled(s: State, t: nat) {
    exists k | 0 <= k < |s.runs| :: s.runs[k].ticket == t
  }

  /** The conditions on nodes that WorkerPop, WorkerRun and ClientLink state are never what holds
    * a thread back: in every reachable state the pointers they follow are to live nodes, and a
    * worker past its two tests has a node to take.
    */
  lemma PointersAreLive(n: nat, m: nat, s: State)
    requires n > 0 && Reachable(n, m, s)
    ensures forall w | 0 <= w < |s.workers| && s.workers[w].Deciding? && !(s.shutdown && s.head == 0) ::
      s.head != 0 && s.head in s.heap && s.queue != []
    ensures forall w | 0 <= w < |s.workers| && s.workers[w].Running? ::
      s.workers[w].node in s.heap && s.workers[w].ticket < |s.fates|
    ensures forall c | 0 <= c < |s.clients| && s.clients[c].Entered? ::
      s.clients[c].node in s.heap && (s.tail == 0 || s.tail in s.heap)
  {
    ReachableInv(n, m, s);
  }

  // ----- what was asked for --------------------------------------------------------------------

  /** A run with the actions that make it. */
  ghost predicate IsTrace(states: seq<State>, actions: seq<Action>) {
    |states| == |actions| + 1 && forall i | 0 <= i < |actions| :: StepAt(states, actions, i)
  }

  ghost predicate StepAt(states: seq<State>, actions: seq<Action>, i: nat)
    requires i < |actions| && |states| == |actions| + 1
  {
    Step(states[i], actions[i], states[i + 1])
  }

  /** The item that client c was called with last. */
  function Asked(actions: seq<Action>, c: nat): Option<Item> {
    if actions == [] then None
    else
      match actions[|actions| - 1]
      case AFill(client, _, item) => if client == c then Some(item) else Asked(actions[..|actions| - 1], c)
      case _ => Asked(actions[..|actions| - 1], c)
  }

  /** The items asked for, in the order in which their calls of submit extended the list. */
  function Submissions(actions: seq<Action>): seq<Item> {
    if actions == [] then []
    else
      var before := actions[..|actions| - 1];
      match actions[|actions| - 1]
      case ALink(c) => Submissions(before) + (match Asked(before, c) case Some(item) => [item] case None => [])
      case _ => Submissions(before)
  }

  /** The workers that call, in the order of their calls. */
  function Callers(actions: seq<Action>): seq<nat> {
    if actions == [] then []
    else
      match actions[|actions| - 1]
      case ARun(w) => Callers(actions[..|actions| - 1]) + [w]
      case _ => Callers(actions[..|actions| - 1])
  }

  /** A submitter's node holds the item it was called with, and every call is a worker's. */
  ghost predicate AskedInv(s: State, actions: seq<Action>) {
    && |s.runs| == |Callers(actions)| && (forall k | 0 <= k < |s.runs| :: s.runs[k].worker == Callers(actions)[k])
    && (forall c | 0 <= c < |s.clients| && Prepares(s.clients[c]) ::
          s.clients[c].node in s.heap && Asked(actions, c) == Some(s.heap[s.clients[c].node].item))
    && s.submitted == Submissions(actions)
  }

  lemma StepKeepsAsked(s: State, a: Action, s': State, actions: seq<Action>)
    requires Inv(s) && AskedInv(s, actions) && Step(s, a, s')
    ensures AskedInv(s', actions + [a])
  {
    hide Inv, AskedInv, Step;
    match a
    case AFill(c, node, item) => FillKeepsAsked(s, c, node, item, s', actions);
    case ALink(c) => LinkKeepsAsked(s, c, s', actions);
    case ARun(w) => RunKeepsAsked(s, w, s', actions);
    case _ => OtherStepKeepsAsked(s, a, s', actions);
  }

  lemma FillKeepsAsked(s: State, c: nat, node: int, item: Item, s': State, actions: seq<Action>)
    requires Inv(s) && AskedInv(s, actions) && Step(s, AFill(c, node, item), s')
    ensures AskedInv(s', actions + [AFill(c, node, item)])
  {
    hide MutexInv, ListInv, FifoInv, OnceInv, WakeInv, ShutdownInv;
    assert (actions + [AFill(c, node, item)])[..|actions|] == actions;
  }

  lemma LinkKeepsAsked(s: State, c: nat, s': State, actions: seq<Action>)
    requires Inv(s) && AskedInv(s, actions) && Step(s, ALink(c), s')
    ensures AskedInv(s', actions + [ALink(c)])
  {
    hide MutexInv, FifoInv, OnceInv, WakeInv, ShutdownInv;
    assert (actions + [ALink(c)])[..|actions|] == actions;
  }

  lemma RunKeepsAsked(s: State, w: nat, s': State, actions: seq<Action>)
    requires Inv(s) && AskedInv(s, actions) && Step(s, ARun(w), s')
    ensures AskedInv(s', actions + [ARun(w)])
  {
    hide MutexInv, ListInv, FifoInv, OnceInv, WakeInv, ShutdownInv;
    assert (actions + [ARun(w)])[..|actions|] == actions;
  }

  lemma OtherStepKeepsAsked(s: State, a: Action, s': State, actions: seq<Action>)
    requires Inv(s) && AskedInv(s, actions) && Step(s, a, s') && !a.AFill? && !a.ALink? && !a.ARun?
    ensures AskedInv(s', actions + [a])
  {
    hide MutexInv, ListInv, FifoInv, OnceInv, WakeInv, ShutdownInv, AskedInv;
    assert (actions + [a])[..|actions|] == actions;
    PreparedNodesStay(s, a, s');
    SameAsked(s, s', actions, actions + [a]);
  }

  /** No other step touches a node that a submitter prepares. */
  lemma PreparedNodesStay(s: State, a: Action, s': State)
    requires Inv(s) && Step(s, a, s') && !a.AFill? && !a.ALink? && !a.ARun?
    ensures s'.submitted == s.submitted && s'.runs == s.runs && |s'.clients| == |s.clients|
    ensures forall c | 0 <= c < |s.clients| && Prepares(s'.clients[c]) ::
      && Prepares(s.clients[c]) && s'.clients[c].node == s.clients[c].node
      && s.clients[c].node in s.heap && s.clients[c].node in s'.heap
      && s'.heap[s.clients[c].node] == s.heap[s.clients[c].node]
  {
    hide MutexInv, ListInv, FifoInv, OnceInv, WakeInv, ShutdownInv;
  }

  lemma SameAsked(s: State, s': State, actions: seq<Action>, actions': seq<Action>)
    requires AskedInv(s, actions) && s'.submitted == s.submitted && |s'.clients| == |s.clients|
    requires s'.runs == s.runs && Callers(actions') == Callers(actions)
    requires forall c | 0 <= c < |s.clients| && Prepares(s'.clients[c]) ::
      && Prepares(s.clients[c]) && s'.clients[c].node == s.clients[c].node
      && s.clients[c].node in s.heap && s.clients[c].node in s'.heap
      && s'.heap[s.clients[c].node] == s.heap[s.clients[c].node]
    requires Submissions(actions') == Submissions(actions) && forall c: nat :: Asked(actions', c) == Asked(actions, c)
    ensures AskedInv(s', actions')
  {
  }

  lemma {:induction false} TraceInv(n: nat, m: nat, states: seq<State>, actions: seq<Action>)
    requires n > 0 && IsTrace(states, actions) && states[0] == Init(n, m)
    ensures Inv(states[|actions|]) && AskedInv(states[|actions|], actions) && Reachable(n, m, states[|actions|])
    decreases |actions|
  {
    hide Inv, Step, AskedInv, Reachable;
    if actions == [] {
      InitInv(n, m);
      ReachableInit(n, m);
      assert AskedInv(states[0], actions) by { InitAsked(n, m); }
    } else {
      var k := |actions| - 1;
      var begin, before := states[..k + 1], actions[..k];
      forall i | 0 <= i < k ensures StepAt(begin, before, i) {
        assert StepAt(states, actions, i);
      }
      TraceInv(n, m, begin, before);
      assert StepAt(states, actions, k);
      StepKeepsInv(states[k], actions[k], states[k + 1]);
      StepKeepsAsked(states[k], actions[k], states[k + 1], actions[..k]);
      ReachableStep(n, m, states[k], actions[k], states[k + 1]);
      assert actions == actions[..k] + [actions[k]];
    }
  }

  lemma InitAsked(n: nat, m: nat)
    ensures AskedInv(Init(n, m), [])
  {
  }

  /** What submit was called with is what is submitted, in order, and every call of fn by a worker is
    * of an item as some call of submit asked for, by the worker whose step it is.
    */
  lemma CallsAreAsAsked(n: nat, m: nat, states: seq<State>, actions: seq<Action>)
    requires n > 0 && IsTrace(states, actions) && states[0] == Init(n, m)
    ensures var s := states[|actions|];
      && s.submitted == Submissions(actions) && |s.runs| == |Callers(actions)|
      && forall k | 0 <= k < |s.runs| ::
           && s.runs[k].worker == Callers(actions)[k]
           && s.runs[k].ticket < |Submissions(actions)| && s.runs[k].item == Submissions(actions)[s.runs[k].ticket]
  {
    hide Inv;
    TraceInv(n, m, states, actions);
    FifoExactlyOnce(n, m, states[|actions|]);
  }

  /** When the joins of destroy have returned, every item that submit was called with has been called
    * exactly once.
    */
  lemma EveryCallOfSubmitIsServed(n: nat, m: nat, states: seq<State>, actions: seq<Action>, t: nat)
    requires n > 0 && IsTrace(states, actions) && states[0] == Init(n, m) && t < |Submissions(actions)|
    requires var s := states[|actions|]; s.owner.Done? || (s.owner.Joining? && s.owner.joined == |s.workers|)
    ensures var s := states[|actions|]; exists k | 0 <= k < |s.runs| ::
      IsOnlyCall(s, t, k) && s.runs[k].item == Submissions(actions)[t]
  {
    hide Inv;
    TraceInv(n, m, states, actions);
    DestroyReturnsAfterAllWork(n, m, states[|actions|], t);
  }

  // ----- no node is leaked ---------------------------------------------------------------------

  ghost predicate IsCarriedNode(s: State, node: int) {
    exists w | 0 <= w < |s.workers| :: Carries(s.workers[w]) && s.workers[w].node == node
  }

  ghost predicate IsPreparedNode(s: State, node: int) {
    exists c | 0 <= c < |s.clients| :: Prepares(s.clients[c]) && s.clients[c].node == node
  }

  /** Every live node is linked, with a worker, or with a submitter. */
  ghost predicate NoneLeaked(s: State) {
    forall node | node in s.heap :: node in s.queue || IsCarriedNode(s, node) || IsPreparedNode(s, node)
  }

  lemma StepLeaksNothing(s: State, a: Action, s': State)
    requires Inv(s) && NoneLeaked(s) && Step(s, a, s')
    ensures NoneLeaked(s')
  {
    hide Inv, Step, IsCarriedNode, IsPreparedNode;
    forall node | node in s'.heap
      ensures node in s'.queue || IsCarriedNode(s', node) || IsPreparedNode(s', node)
    {
      if node !in s.heap {
        NewNodeIsPrepared(s, a, s', node);
      } else {
        assert node in s.queue || IsCarriedNode(s, node) || IsPreparedNode(s, node);
        if node in s.queue {
          LinkedNodeStays(s, a, s', node);
        } else if IsCarriedNode(s, node) {
          CarriedNodeStays(s, a, s', node);
        } else {
          PreparedNodeStays(s, a, s', node);
        }
      }
    }
  }

  lemma NewNodeIsPrepared(s: State, a: Action, s': State, node: int)
    requires Inv(s) && Step(s, a, s') && node !in s.heap && node in s'.heap
    ensures IsPreparedNode(s', node)
  {
    hide Inv;
    if a.AFill? {
      assert Prepares(s'.clients[a.c]);
    }
  }

  lemma LinkedNodeStays(s: State, a: Action, s': State, node: int)
    requires Inv(s) && Step(s, a, s') && node in s.queue && node in s'.heap
    ensures node in s'.queue || IsCarriedNode(s', node)
  {
    hide MutexInv, OwnershipInv, FifoInv, OnceInv, WakeInv, ShutdownInv;
    if a.APop? {
      assert s.queue == [s.queue[0]] + s.queue[1..];
      assert Carries(s'.workers[a.w]) && s'.workers[a.w].node == s.queue[0];
    }
  }

  lemma CarriedNodeStays(s: State, a: Action, s': State, node: int)
    requires Inv(s) && Step(s, a, s') && IsCarriedNode(s, node) && node in s'.heap
    ensures IsCarriedNode(s', node)
  {
    hide MutexInv, ListInv, OwnershipInv, FifoInv, OnceInv, WakeInv, ShutdownInv;
    var w :| 0 <= w < |s.workers| && Carries(s.workers[w]) && s.workers[w].node == node;
    assert Carries(s'.workers[w]) && s'.workers[w].node == node;
  }

  lemma PreparedNodeStays(s: State, a: Action, s': State, node: int)
    requires Inv(s) && Step(s, a, s') && IsPreparedNode(s, node)
    ensures node in s'.queue || IsPreparedNode(s', node)
  {
    hide MutexInv, ListInv, OwnershipInv, FifoInv, OnceInv, WakeInv, ShutdownInv;
    var c :| 0 <= c < |s.clients| && Prepares(s.clients[c]) && s.clients[c].node == node;
    assert (a.ALink? && a.c == c) || (Prepares(s'.clients[c]) && s'.clients[c].node == node);
  }

  lemma {:induction false} RunLeaksNothing(states: seq<State>, i: nat)
    requires IsRun(states) && Inv(states[0]) && NoneLeaked(states[0]) && i < |states|
    ensures NoneLeaked(states[i])
  {
    hide Inv, Step, NoneLeaked;
    if i > 0 {
      RunLeaksNothing(states, i - 1);
      RunKeepsInv(states, i - 1);
      assert HasStep(states[i - 1], states[i - 1 + 1]);
      var a :| Step(states[i - 1], a, states[i]);
      StepLeaksNothing(states[i - 1], a, states[i]);
    }
  }

  /** In every reachable state each live node is linked, with a worker, or with a submitter; when
    * destroy is done no node is left.
    */
  lemma NoNodeIsLeaked(n: nat, m: nat, s: State)
    requires n > 0 && Reachable(n, m, s)
    ensures NoneLeaked(s)
    ensures s.owner.Done? ==> s.heap == map[]
  {
    var states :| IsRun(states) && states[0] == Init(n, m) && states[|states| - 1] == s;
    InitInv(n, m);
    RunLeaksNothing(states, |states| - 1);
    ReachableInv(n, m, s);
    if s.owner.Done? {
      DoneHoldsNothing(s);
    }
  }

  lemma DoneHoldsNothing(s: State)
    requires Inv(s) && NoneLeaked(s) && s.owner.Done?
    ensures s.heap == map[]
  {
    hide MutexInv, ListInv, OwnershipInv, FifoInv, OnceInv, WakeInv;
    assert forall w | 0 <= w < |s.workers| :: !Carries(s.workers[w]);
    assert forall c | 0 <= c < |s.clients| :: !Prepares(s.clients[c]);
    assert forall node :: node !in s.heap;
  }

  /** No lost wakeup: in every reachable state with linked work, either a submitter that holds
    * the mutex is about to signal, or some worker is neither waiting nor exited.
    */
  lemma NoLostWakeup(n: nat, m: nat, s: State)
    requires n > 0 && Reachable(n, m, s) && s.head != 0
    ensures AboutToSignal(s) || exists w | 0 <= w < |s.workers| :: IsActive(s.workers[w])
  {
    ReachableInv(n, m, s);
  }

  lemma ReachableInit(n: nat, m: nat)
    ensures Reachable(n, m, Init(n, m))
  {
    assert IsRun([Init(n, m)]);
  }

  lemma ReachableStep(n: nat, m: nat, s: State, a: Action, s': State)
    requires Reachable(n, m, s) && Step(s, a, s')
    ensures Reachable(n, m, s')
  {
    hide Step;
    var states :| IsRun(states) && states[0] == Init(n, m) && states[|states| - 1] == s;
    assert HasStep(s, s');
    assert IsRun(states + [s']);
  }

  /** The submitter about to signal cannot be left out: with one worker and one submitter, a state
    * is reachable in which work is linked and every worker waits.
    */
  lemma WorkWhileAllWait() returns (s: State)
    ensures Reachable(1, 1, s) && s.head != 0
    ensures forall w | 0 <= w < |s.workers| :: s.workers[w].Waiting?
  {
    hide Reachable;
    var item := Item(0, 0);
    s := Init(1, 1);
    ReachableInit(1, 1);
    var s1 := s.(mutex := ByWorker(0), workers := s.workers[0 := Testing]);
    ReachableStep(1, 1, s, ALock(0), s1);
    var s2 := s1.(mutex := Nobody, workers := s1.workers[0 := Waiting]);
    ReachableStep(1, 1, s1, ATest(0), s2);
    var s3 := s2.(heap := s2.heap[1 := Node(item, 0)], clients := s2.clients[0 := Filled(1)]);
    ReachableStep(1, 1, s2, AFill(0, 1, item), s3);
    var s4 := s3.(mutex := ByClient(0), clients := s3.clients[0 := Entered(1)]);
    ReachableStep(1, 1, s3, AClientLock(0), s4);
    s := s4.(head := 1, clients := s4.clients[0 := Linked(1)], queue := s4.queue + [1],
             submitted := s4.submitted + [item]);
    ReachableStep(1, 1, s4, ALink(0), s);
  }

  /** Call k is of item t as it was submitted, and no other call is of item t. */
  ghost predicate IsOnlyCall(s: State, t: nat, k: nat) {
    && k < |s.runs| && t < |s.submitted|
    && s.runs[k].ticket == t && s.runs[k].item == s.submitted[t]
    && forall l | 0 <= l < |s.runs| && l != k :: s.runs[l].ticket != t
  }

  /** When the joins of destroy have returned, the list is empty and every item submitted has
    * been called exactly once.
    */
  lemma DestroyReturnsAfterAllWork(n: nat, m: nat, s: State, t: nat)
    requires n > 0 && Reachable(n, m, s)
    requires s.owner.Done? || (s.owner.Joining? && s.owner.joined == |s.workers|)
    requires t < |s.submitted|
    ensures s.head == 0
    ensures exists k | 0 <= k < |s.runs| :: IsOnlyCall(s, t, k)
  {
    ReachableInv(n, m, s);
    assert forall w | 0 <= w < |s.workers| :: s.workers[w].Exited?;
    assert s.workers[0].Exited?;
    assert s.queue == [] && s.submitted == s.dequeued;
    assert s.fates[t].Called?;
    var k := s.fates[t].k;
    assert IsOnlyCall(s, t, k);
  }

  // ----- shutdown finishes ------------------------------------------------------------------

  function Weight(w: Worker): nat {
    match w
    case AtLock => 5
    case Testing => 4
    case Waiting => 6
    case Awakened => 5
    case Deciding => 3
    case Popped(_, _) => 9
    case Leaving(_, _) => 8
    case Running(_, _) => 7
    case Exiting => 2
    case Exited => 0
  }

  ghost function TotalWeight(workers: seq<Worker>): nat {
    if workers == [] then 0 else TotalWeight(workers[..|workers| - 1]) + Weight(workers[|workers| - 1])
  }

  lemma {:induction false} WeightAfterUpdate(workers: seq<Worker>, w: nat, v: Worker)
    requires w < |workers|
    ensures TotalWeight(workers[w := v]) == TotalWeight(workers) - Weight(workers[w]) + Weight(v)
  {
    var n := |workers| - 1;
    if w == n {
      assert workers[w := v][..n] == workers[..n];
    } else {
      assert workers[w := v][..n] == workers[..n][w := v];
      WeightAfterUpdate(workers[..n], w, v);
    }
  }

  ghost function OwnerWeight(o: Owner, n: nat): nat {
    match o
    case Broadcasted => n + 2
    case Joining(j) => if j <= n then n - j + 1 else 0
    case _ => 0
  }

  /** How much is left to do once destroy has broadcast. */
  ghost function Remaining(s: State): nat {
    TotalWeight(s.workers) + 10 * |s.queue| + OwnerWeight(s.owner, |s.workers|)
  }

  ghost predicate IsClosing(s: State) {
    s.owner.Broadcasted? || s.owner.Joining? || s.owner.Done?
  }

  lemma WorkerStepDecreases(s: State, w: nat, s': State)
    requires w < |s.workers| == |s'.workers| && s'.workers == s.workers[w := s'.workers[w]] && s'.owner == s.owner
    requires Weight(s'.workers[w]) + 10 * |s'.queue| < Weight(s.workers[w]) + 10 * |s.queue|
    ensures Remaining(s') < Remaining(s)
  {
    WeightAfterUpdate(s.workers, w, s'.workers[w]);
  }

  ghost predicate IsWorkerAction(a: Action) {
    a.ALock? || a.ATest? || a.ASpurious? || a.AQuit? || a.APop? || a.AFixTail? || a.AUnlock? || a.ARun? || a.AExit?
  }

  /** After the broadcast every step, whoever takes it, leaves less to do. */
  lemma ClosingStepsDecrease(s: State, a: Action, s': State)
    requires Inv(s) && IsClosing(s) && Step(s, a, s')
    ensures IsClosing(s') && Remaining(s') < Remaining(s)
  {
    hide MutexInv, ListInv, OwnershipInv, FifoInv, OnceInv, WakeInv, TotalWeight;
    if IsWorkerAction(a) {
      hide Remaining;
      WorkerStepDecreases(s, a.w, s');
    } else {
      assert !a.AFill? && !a.AClientLock? && !a.ALink? && !a.ATail? && !a.ASignal? && !a.AClientUnlock?;
    }
  }

  // ----- nobody is held back -------------------------------------------------------------------

  ghost predicate Enabled(s: State, a: Action) {
    exists s' :: Step(s, a, s')
  }

  /** A worker can always take its next step, but for a mutex that another thread holds. */
  lemma WorkerCanStep(s: State, w: nat)
    requires Inv(s) && w < |s.workers|
    ensures match s.workers[w]
      case AtLock => s.mutex == Nobody ==> Enabled(s, ALock(w))
      case Testing => Enabled(s, ATest(w))
      case Waiting => Enabled(s, ASpurious(w))
      case Awakened => s.mutex == Nobody ==> Enabled(s, ALock(w))
      case Deciding => Enabled(s, if s.shutdown && s.head == 0 then AQuit(w) else APop(w))
      case Popped(_, _) => Enabled(s, AFixTail(w))
      case Leaving(_, _) => Enabled(s, AUnlock(w))
      case Running(_, _) => Enabled(s, ARun(w))
      case Exiting => Enabled(s, AExit(w))
      case Exited => true
  {
    match s.workers[w]
    case AtLock =>
      assert s.mutex == Nobody ==> Step(s, ALock(w), s.(mutex := ByWorker(w), workers := s.workers[w := Testing]));
    case Testing =>
      assert Step(s, ATest(w),
        if s.head == 0 && !s.shutdown then s.(mutex := Nobody, workers := s.workers[w := Waiting])
        else s.(workers := s.workers[w := Deciding]));
    case Waiting =>
      assert Step(s, ASpurious(w), s.(workers := s.workers[w := Awakened]));
    case Awakened =>
      assert s.mutex == Nobody ==> Step(s, ALock(w), s.(mutex := ByWorker(w), workers := s.workers[w := Testing]));
    case Deciding =>
      if s.shutdown && s.head == 0 {
        assert Step(s, AQuit(w), s.(workers := s.workers[w := Exiting]));
      } else {
        assert s.queue != [] && s.queue[0] in s.heap;
        assert Step(s, APop(w), s.(head := s.heap[s.head].next, workers := s.workers[w := Popped(s.head, |s.dequeued|)],
          queue := s.queue[1..], dequeued := s.dequeued + [s.heap[s.head].item], fates := s.fates + [InHands(w)]));
      }
    case Popped(node, ticket) =>
      assert Step(s, AFixTail(w),
        s.(tail := if s.head == 0 then 0 else s.tail, workers := s.workers[w := Leaving(node, ticket)]));
    case Leaving(node, ticket) =>
      assert Step(s, AUnlock(w), s.(mutex := Nobody, workers := s.workers[w := Running(node, ticket)]));
    case Running(node, ticket) =>
      assert Step(s, ARun(w), s.(heap := s.heap - {node}, workers := s.workers[w := AtLock],
        runs := s.runs + [Run(w, ticket, s.heap[node].item)], fates := s.fates[ticket := Called(|s.runs|)]));
    case Exiting =>
      assert Step(s, AExit(w), s.(mutex := Nobody, workers := s.workers[w := Exited]));
    case Exited =>
  }

  /** So can a submitter; it can submit any item in any fresh node until destroy is called. */
  lemma ClientCanStep(s: State, c: nat)
    requires Inv(s) && c < |s.clients|
    ensures match s.clients[c]
      case Outside =>
        s.owner.NotCalled? ==> forall node, item | node != 0 && node !in s.heap :: Enabled(s, AFill(c, node, item))
      case Filled(_) => s.mutex == Nobody ==> Enabled(s, AClientLock(c))
      case Entered(_) => Enabled(s, ALink(c))
      case Linked(_) => Enabled(s, ATail(c))
      case Tailed => exists woken :: Enabled(s, ASignal(c, woken))
      case Signalled => Enabled(s, AClientUnlock(c))
  {
    match s.clients[c]
    case Outside =>
      forall node, item | s.owner.NotCalled? && node != 0 && node !in s.heap ensures Enabled(s, AFill(c, node, item)) {
        assert Step(s, AFill(c, node, item),
          s.(heap := s.heap[node := Node(item, 0)], clients := s.clients[c := Filled(node)]));
      }
    case Filled(node) =>
      assert s.mutex == Nobody ==>
        Step(s, AClientLock(c), s.(mutex := ByClient(c), clients := s.clients[c := Entered(node)]));
    case Entered(node) =>
      assert s.tail == 0 || s.tail in s.heap;
      assert Step(s, ALink(c),
        s.(heap := if s.tail != 0 then s.heap[s.tail := s.heap[s.tail].(next := node)] else s.heap,
           head := if s.tail != 0 then s.head else node, clients := s.clients[c := Linked(node)],
           queue := s.queue + [node], submitted := s.submitted + [s.heap[node].item]));
    case Linked(node) =>
      assert Step(s, ATail(c), s.(tail := node, clients := s.clients[c := Tailed]));
    case Tailed =>
      var woken := set w: nat | w < |s.workers| && s.workers[w].Waiting?;
      assert Step(s, ASignal(c, woken), s.(workers := Wake(s.workers, woken), clients := s.clients[c := Signalled]));
    case Signalled =>
      assert Step(s, AClientUnlock(c), s.(mutex := Nobody, clients := s.clients[c := Outside]));
  }

  /** And so can destroy, but for the join of a worker that has not exited. */
  lemma OwnerCanStep(s: State)
    requires Inv(s)
    ensures match s.owner
      case NotCalled =>
        s.mutex == Nobody && (forall c | 0 <= c < |s.clients| :: s.clients[c].Outside?) ==> Enabled(s, AOwnerLock)
      case HoldsLock => Enabled(s, ASetFlag)
      case FlagSet => Enabled(s, ABroadcast)
      case Broadcasted => Enabled(s, AOwnerUnlock)
      case Joining(j) =>
        if j == |s.workers| then Enabled(s, ADrain) else s.workers[j].Exited? ==> Enabled(s, AJoin)
      case Done => true
  {
    hide ListInv, OwnershipInv, FifoInv, OnceInv, WakeInv;
    match s.owner
    case NotCalled =>
      if s.mutex == Nobody && forall c | 0 <= c < |s.clients| :: s.clients[c].Outside? {
        assert Step(s, AOwnerLock, s.(mutex := ByOwner, owner := HoldsLock));
      }
    case HoldsLock =>
      assert Step(s, ASetFlag, s.(shutdown := true, owner := FlagSet));
    case FlagSet =>
      assert Step(s, ABroadcast, s.(workers := Wake(s.workers, set w: nat | w < |s.workers| && s.workers[w].Waiting?),
                                    owner := Broadcasted));
    case Broadcasted =>
      assert Step(s, AOwnerUnlock, s.(mutex := Nobody, owner := Joining(0)));
    case Joining(j) =>
      if j == |s.workers| {
        assert Step(s, ADrain, s.(heap := s.heap - (set n | n in s.queue), head := 0, tail := 0, queue := [],
                                  owner := Done));
      } else if s.workers[j].Exited? {
        assert Step(s, AJoin, s.(owner := Joining(j + 1)));
      }
    case Done =>
  }

  /** Some step is possible that is no spurious wakeup and begins no submit and no destroy. */
  ghost predicate CanProceed(s: State) {
    exists a :: Enabled(s, a) && !a.ASpurious? && !a.AFill? && !a.AOwnerLock?
  }

  /** Whoever holds the mutex can go on. */
  lemma HolderCanStep(s: State)
    requires Inv(s) && s.mutex != Nobody
    ensures CanProceed(s)
  {
    hide Enabled, ListInv, OwnershipInv, FifoInv, OnceInv, WakeInv;
    match s.mutex
    case ByWorker(w) => WorkerCanStep(s, w);
    case ByClient(c) => ClientCanStep(s, c);
    case ByOwner => OwnerCanStep(s);
  }

  /** A worker that neither waits nor has exited can go on when the mutex is free. */
  lemma ActiveCanStep(s: State, w: nat)
    requires Inv(s) && s.mutex == Nobody && w < |s.workers| && IsActive(s.workers[w])
    ensures CanProceed(s)
  {
    hide Enabled, ListInv, OwnershipInv, FifoInv, OnceInv, WakeInv;
    assert !WorkerHolds(s.workers[w]);
    WorkerCanStep(s, w);
  }

  /** As long as work is linked or in the hands of a worker, some thread can go on without another
    * submit, without destroy, and without a spurious wakeup.
    */
  lemma WorkProceeds(n: nat, m: nat, s: State)
    requires n > 0 && Reachable(n, m, s)
    requires s.head != 0 || exists w | 0 <= w < |s.workers| :: Carries(s.workers[w])
    ensures CanProceed(s)
  {
    hide Reachable, CanProceed;
    ReachableInv(n, m, s);
    if s.mutex != Nobody {
      HolderCanStep(s);
    } else if s.head != 0 {
      NoLostWakeup(n, m, s);
      var w :| 0 <= w < |s.workers| && IsActive(s.workers[w]);
      ActiveCanStep(s, w);
    } else {
      var w :| 0 <= w < |s.workers| && Carries(s.workers[w]);
      ActiveCanStep(s, w);
    }
  }

  /** After the broadcast, until destroy is done, some step is possible that is no spurious
    * wakeup: nobody is left blocked.
    */
  lemma ClosingIsNotStuck(s: State)
    requires Inv(s) && IsClosing(s) && !s.owner.Done?
    ensures CanProceed(s)
  {
    hide Enabled, ListInv, OwnershipInv, FifoInv, OnceInv, WakeInv;
    if s.mutex != Nobody {
      HolderCanStep(s);
    } else {
      OwnerCanStep(s);
      var j := s.owner.joined;
      if j < |s.workers| && !s.workers[j].Exited? {
        ActiveCanStep(s, j);
      }
    }
  }

  /** Destroy returns: a run that starts after the broadcast has at most Remaining steps, so it
    * cannot go on for ever, and it can only stop when destroy is done.
    */
  lemma {:induction false} ClosingRunsEnd(states: seq<State>)
    requires IsRun(states) && Inv(states[0]) && IsClosing(states[0])
    ensures |states| - 1 <= Remaining(states[0])
    ensures !states[|states| - 1].owner.Done? ==> CanProceed(states[|states| - 1])
    decreases |states|
  {
    hide Inv, Step, Remaining;
    if |states| == 1 {
      if !states[0].owner.Done? {
        ClosingIsNotStuck(states[0]);
      }
    } else {
      var rest := states[1..];
      assert HasStep(states[0], states[0 + 1]);
      var a :| Step(states[0], a, states[1]);
      StepKeepsInv(states[0], a, states[1]);
      ClosingStepsDecrease(states[0], a, states[1]);
      forall i | 0 <= i < |rest| - 1 ensures HasStep(rest[i], rest[i + 1]) {
        assert HasStep(states[i + 1], states[(i + 1) + 1]);
      }
      ClosingRunsEnd(rest);
    }
  }
}
