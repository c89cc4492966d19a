/** String interning (struniq of localename.c) as a step system: any number of threads, each
  * statement on shared state a step of its own, the first scan of a bucket unlocked.
  *
  * The multithreaded case is modelled, with malloc succeeding. Addresses are positive, 0 is NULL;
  * strings are modelled without their terminator.
  */
module StrUniq {
  import opened Options
  import opened Words

  const TABLE_SIZE := 257

  const SIZE_LIMIT := 0x1_0000_0000_0000_0000

  /** The low 55 bits move up by 9, the high 9 bits come down: on 64 bits, a multiplication by 2^9
    * modulo 2^64 - 1.
    */
  function RotateLeft9(h: nat): (r: nat)
    requires h < SIZE_LIMIT
    ensures r < SIZE_LIMIT && (r - h * 512) % (SIZE_LIMIT - 1) == 0
  {
    var high, low := h / 0x80_0000_0000_0000, h % 0x80_0000_0000_0000;
    assert h == high * 0x80_0000_0000_0000 + low && h * 512 % SIZE_LIMIT == low * 512;
    assert low * 512 + high - h * 512 == -high * (SIZE_LIMIT - 1);
    h * 512 % SIZE_LIMIT + high
  }

  /** string_hash on a 64-bit size_t: rotate left by 9 and add the next char. */
  function StringHash(s: seq<byte>): (h: nat)
    ensures h < SIZE_LIMIT
  {
    if s == [] then 0 else (SignedChar(s[|s| - 1]) + RotateLeft9(StringHash(s[..|s| - 1]))) % SIZE_LIMIT
  }

  /** "ab", and a char above 127. */
  lemma HashExamples()
    ensures StringHash([97, 98]) == 512 * 97 + 98
    ensures StringHash([255]) == SIZE_LIMIT - 1
    ensures Slot([97, 98]) == 161
  {
    assert [97, 98][..1] == [97] && [97][..0] == [] && [255][..0] == [];
    assert StringHash([97]) == 97;
  }

  /** string_hash. */
  method ComputeHash(s: seq<byte>) returns (h: nat)
    ensures h == StringHash(s) < SIZE_LIMIT
  {
    h := 0;
    for i := 0 to |s|
      invariant h == StringHash(s[..i]) < SIZE_LIMIT
    {
      var rotated := h * 512 % SIZE_LIMIT + h / 0x80_0000_0000_0000;
      h := ((if s[i] < 128 then s[i] else s[i] - 256) + rotated) % SIZE_LIMIT;
      assert s[..i + 1][..i] == s[..i];
    }
    assert s[..|s|] == s;
  }

  function Slot(s: seq<byte>): (k: nat)
    ensures k < TABLE_SIZE
  {
    StringHash(s) % TABLE_SIZE
  }

  datatype Node = Node(next: int, contents: seq<byte>)

  /** Where a thread is in struniq. seen counts the nodes the locked scan has passed. */
  datatype Thread =
    | Idle
    | Scanning(s: seq<byte>, p: int)
    | Missed(s: seq<byte>)
    | Prepared(s: seq<byte>, node: int)
    | Rescanning(s: seq<byte>, node: int, p: int, seen: nat)
    | Linked(s: seq<byte>, node: int)
    | Leaving(s: seq<byte>, found: int)

  /** A call struniq (s) that returned the contents of node. */
  datatype Result = Result(s: seq<byte>, node: int)

  datatype Holder = Nobody | By(t: nat)

  datatype State = State(
    heap: map<int, Node>,
    table: seq<int>,
    lock: Holder,
    threads: seq<Thread>,
    // history: the nodes of each bucket in list order, and the calls that returned
    chains: seq<seq<int>>,
    results: seq<Result>)

  function Init(n: nat): State {
    State(map[], seq(TABLE_SIZE, _ => 0), Nobody, seq(n, _ => Idle), seq(TABLE_SIZE, _ => []), [])
  }

  // ----- steps -----------------------------------------------------------------------------

  ghost predicate IsAt(s: State, t: nat) {
    t < |s.threads| && |s.table| == |s.chains| == TABLE_SIZE
  }

  /** A call starts: read the head of the bucket, without the lock. */
  ghost predicate Call(s: State, t: nat, str: seq<byte>, s': State) {
    && IsAt(s, t) && s.threads[t].Idle?
    && s' == s.(threads := s.threads[t := Scanning(str, s.table[Slot(str)])])
  }

  /** The unlocked scan reaches the end of the list. */
  ghost predicate ScanEnd(s: State, t: nat, s': State) {
    && IsAt(s, t) && s.threads[t].Scanning? && s.threads[t].p == 0
    && s' == s.(threads := s.threads[t := Missed(s.threads[t].s)])
  }

  /** The unlocked scan finds the string: the call returns. */
  ghost predicate ScanHit(s: State, t: nat, s': State) {
    && IsAt(s, t) && s.threads[t].Scanning? && s.threads[t].p != 0 && s.threads[t].p in s.heap
    && s.heap[s.threads[t].p].contents == s.threads[t].s
    && s' == s.(threads := s.threads[t := Idle], results := s.results + [Result(s.threads[t].s, s.threads[t].p)])
  }

  /** The unlocked scan passes a node. */
  ghost predicate ScanNext(s: State, t: nat, s': State) {
    && IsAt(s, t) && s.threads[t].Scanning? && s.threads[t].p != 0 && s.threads[t].p in s.heap
    && s.heap[s.threads[t].p].contents != s.threads[t].s
    && s' == s.(threads := s.threads[t := Scanning(s.threads[t].s, s.heap[s.threads[t].p].next)])
  }

  /** Allocate and fill a node. */
  ghost predicate Allocate(s: State, t: nat, node: int, next: int, s': State) {
    && IsAt(s, t) && s.threads[t].Missed? && node != 0 && node !in s.heap
    && s' == s.(heap := s.heap[node := Node(next, s.threads[t].s)],
                threads := s.threads[t := Prepared(s.threads[t].s, node)])
  }

  /** Take the lock and read the head again. */
  ghost predicate Lock(s: State, t: nat, s': State) {
    && IsAt(s, t) && s.threads[t].Prepared? && s.lock == Nobody
    && var str, node := s.threads[t].s, s.threads[t].node;
       s' == s.(lock := By(t), threads := s.threads[t := Rescanning(str, node, s.table[Slot(str)], 0)])
  }

  /** The locked scan reaches the end: the prepared node's next is set. */
  ghost predicate RescanEnd(s: State, t: nat, s': State) {
    && IsAt(s, t) && s.threads[t].Rescanning? && s.threads[t].p == 0 && s.threads[t].node in s.heap
    && var str, node := s.threads[t].s, s.threads[t].node;
       s' == s.(heap := s.heap[node := s.heap[node].(next := s.table[Slot(str)])],
                threads := s.threads[t := Linked(str, node)])
  }

  /** The locked scan finds the string: the prepared node is freed. */
  ghost predicate RescanHit(s: State, t: nat, s': State) {
    && IsAt(s, t) && s.threads[t].Rescanning? && s.threads[t].p != 0 && s.threads[t].p in s.heap
    && s.heap[s.threads[t].p].contents == s.threads[t].s
    && s' == s.(heap := s.heap - {s.threads[t].node},
                threads := s.threads[t := Leaving(s.threads[t].s, s.threads[t].p)])
  }

  /** The locked scan passes a node. */
  ghost predicate RescanNext(s: State, t: nat, s': State) {
    && IsAt(s, t) && s.threads[t].Rescanning? && s.threads[t].p != 0 && s.threads[t].p in s.heap
    && s.heap[s.threads[t].p].contents != s.threads[t].s
    && var Rescanning(str, node, p, seen) := s.threads[t];
       s' == s.(threads := s.threads[t := Rescanning(str, node, s.heap[p].next, seen + 1)])
  }

  /** Publish the node as the new head. */
  ghost predicate Publish(s: State, t: nat, s': State) {
    && IsAt(s, t) && s.threads[t].Linked?
    && var str, node := s.threads[t].s, s.threads[t].node;
       s' == s.(table := s.table[Slot(str) := node],
                threads := s.threads[t := Leaving(str, node)],
                chains := s.chains[Slot(str) := [node] + s.chains[Slot(str)]])
  }

  ghost predicate Unlock(s: State, t: nat, s': State) {
    && IsAt(s, t) && s.threads[t].Leaving?
    && s' == s.(lock := Nobody, threads := s.threads[t := Idle],
                results := s.results + [Result(s.threads[t].s, s.threads[t].found)])
  }

  datatype Action =
    | ACall(str: seq<byte>) | AScanEnd | AScanHit | AScanNext | AAllocate(node: int, next: int) | ALock
    | ARescanEnd | ARescanHit | ARescanNext | APublish | AUnlock

  ghost predicate Step(s: State, t: nat, a: Action, s': State) {
    match a
    case ACall(str) => Call(s, t, str, s')
    case AScanEnd => ScanEnd(s, t, s')
    case AScanHit => ScanHit(s, t, s')
    case AScanNext => ScanNext(s, t, s')
    case AAllocate(node, next) => Allocate(s, t, node, next, s')
    case ALock => Lock(s, t, s')
    case ARescanEnd => RescanEnd(s, t, s')
    case ARescanHit => RescanHit(s, t, s')
    case ARescanNext => RescanNext(s, t, s')
    case APublish => Publish(s, t, s')
    case AUnlock => Unlock(s, t, s')
  }

  // ----- what every reachable state keeps ---------------------------------------------------

  ghost function First(chain: seq<int>, i: nat): int {
    if i < |chain| then chain[i] else 0
  }

  /** The nodes linked from head are exactly chain, in order. */
  ghost predicate IsChain(heap: map<int, Node>, head: int, chain: seq<int>) {
    && head == First(chain, 0)
    && forall i | 0 <= i < |chain| :: chain[i] != 0 && chain[i] in heap && heap[chain[i]].next == First(chain, i + 1)
  }

  /** A bucket holds strings of its slot only, and no string twice. */
  ghost predicate IsBucket(heap: map<int, Node>, k: nat, chain: seq<int>) {
    && (forall i | 0 <= i < |chain| :: chain[i] in heap && Slot(heap[chain[i]].contents) == k)
    && forall i, j | 0 <= i < j < |chain| :: heap[chain[i]].contents != heap[chain[j]].contents
  }

  ghost predicate TableInv(s: State) {
    && |s.table| == |s.chains| == TABLE_SIZE
    && forall k | 0 <= k < TABLE_SIZE :: IsChain(s.heap, s.table[k], s.chains[k]) && IsBucket(s.heap, k, s.chains[k])
  }

  ghost predicate Holds(t: Thread) {
    t.Rescanning? || t.Linked? || t.Leaving?
  }

  ghost predicate LockInv(s: State) {
    && (forall t | 0 <= t < |s.threads| :: Holds(s.threads[t]) <==> s.lock == By(t))
    && (s.lock.By? ==> s.lock.t < |s.threads|)
  }

  ghost predicate Owns(t: Thread) {
    t.Prepared? || t.Rescanning? || t.Linked?
  }

  ghost predicate InTable(s: State, n: int) {
    exists k | 0 <= k < |s.chains| :: n in s.chains[k]
  }

  /** A prepared node belongs to one thread and is in no bucket. */
  ghost predicate OwnInv(s: State) {
    && (forall t | 0 <= t < |s.threads| && Owns(s.threads[t]) ::
          var n := s.threads[t].node;
          n != 0 && n in s.heap && s.heap[n].contents == s.threads[t].s && !InTable(s, n))
    && (forall t, u | 0 <= t < u < |s.threads| && Owns(s.threads[t]) && Owns(s.threads[u]) ::
          s.threads[t].node != s.threads[u].node)
  }

  /** None of the first n nodes of the chain holds the string. */
  ghost predicate AbsentBefore(heap: map<int, Node>, chain: seq<int>, n: nat, str: seq<byte>) {
    n <= |chain| && forall i | 0 <= i < n :: chain[i] in heap && heap[chain[i]].contents != str
  }

  ghost predicate Found(s: State, str: seq<byte>, n: int)
    requires |s.chains| == TABLE_SIZE
  {
    n in s.chains[Slot(str)] && n in s.heap && s.heap[n].contents == str
  }

  /** What a thread knows where it is. */
  ghost predicate Knows(s: State, t: Thread)
    requires |s.table| == |s.chains| == TABLE_SIZE
  {
    match t
    case Scanning(str, p) => p == 0 || p in s.chains[Slot(str)]
    case Rescanning(str, node, p, seen) =>
      var chain := s.chains[Slot(str)];
      AbsentBefore(s.heap, chain, seen, str) && p == First(chain, seen)
    case Linked(str, node) =>
      var chain := s.chains[Slot(str)];
      && AbsentBefore(s.heap, chain, |chain|, str)
      && node in s.heap && s.heap[node].next == s.table[Slot(str)]
    case Leaving(str, found) => Found(s, str, found)
    case _ => true
  }

  ghost predicate Inv(s: State) {
    && TableInv(s) && LockInv(s) && OwnInv(s)
    && (forall t | 0 <= t < |s.threads| :: Knows(s, s.threads[t]))
    && (forall i | 0 <= i < |s.results| :: Found(s, s.results[i].s, s.results[i].node))
  }

  lemma InitInv(n: nat)
    ensures Inv(Init(n))
  {
  }

  // ----- every step keeps the invariant -----------------------------------------------------

  /** Nodes in the table are left alone. */
  ghost predicate SameInTable(s: State, heap: map<int, Node>) {
    forall k, n | 0 <= k < |s.chains| && n in s.chains[k] :: n in s.heap && n in heap && heap[n] == s.heap[n]
  }

  lemma OwnedIsOutside(s: State, t: nat)
    requires Inv(s) && t < |s.threads| && Owns(s.threads[t])
    ensures forall k | 0 <= k < |s.chains| :: s.threads[t].node !in s.chains[k]
  {
    hide TableInv, LockInv, Knows, Found;
    assert !InTable(s, s.threads[t].node);
  }

  lemma TableNodesLive(s: State)
    requires TableInv(s)
    ensures SameInTable(s, s.heap)
  {
    forall k, n | 0 <= k < |s.chains| && n in s.chains[k] ensures n in s.heap {
      assert IsBucket(s.heap, k, s.chains[k]);
    }
  }

  lemma FrameTable(s: State, s': State)
    requires TableInv(s) && s'.table == s.table && s'.chains == s.chains && SameInTable(s, s'.heap)
    ensures TableInv(s')
  {
    forall k | 0 <= k < TABLE_SIZE
      ensures IsChain(s'.heap, s'.table[k], s'.chains[k]) && IsBucket(s'.heap, k, s'.chains[k])
    {
      assert IsChain(s.heap, s.table[k], s.chains[k]) && IsBucket(s.heap, k, s.chains[k]);
      var chain := s.chains[k];
      forall i | 0 <= i < |chain| ensures chain[i] in s'.heap && s'.heap[chain[i]] == s.heap[chain[i]] {
        assert chain[i] in s.chains[k];
      }
    }
  }

  lemma FrameKnows(s: State, s': State, t: Thread)
    requires TableInv(s) && s'.table == s.table && s'.chains == s.chains && SameInTable(s, s'.heap)
    requires Knows(s, t) && !t.Linked?
    ensures Knows(s', t)
  {
    if t.Rescanning? {
      var chain := s.chains[Slot(t.s)];
      forall i | 0 <= i < t.seen ensures chain[i] in s'.heap && s'.heap[chain[i]].contents != t.s {
        assert chain[i] in s.chains[Slot(t.s)];
      }
    }
  }

  ghost predicate SameNode(s: State, s': State, n: int) {
    n in s.heap && n in s'.heap && s'.heap[n] == s.heap[n]
  }

  /** Steps of one thread that leave the table and its nodes alone. */
  lemma LocalStep(s: State, t: nat, s': State)
    requires Inv(s) && t < |s.threads| == |s'.threads| && s'.threads == s.threads[t := s'.threads[t]]
    requires s'.table == s.table && s'.chains == s.chains && SameInTable(s, s'.heap)
    requires LockInv(s') && OwnInv(s') && Knows(s', s'.threads[t])
    requires forall u | 0 <= u < |s.threads| && u != t && s.threads[u].Linked? :: SameNode(s, s', s.threads[u].node)
    requires s'.results == s.results
      || exists r :: s'.results == s.results + [r] && Found(s', r.s, r.node)
    ensures Inv(s')
  {
    hide LockInv, OwnInv;
    FrameTable(s, s');
    forall u | 0 <= u < |s'.threads| ensures Knows(s', s'.threads[u]) {
      if u != t {
        assert Knows(s, s.threads[u]);
        if s.threads[u].Linked? {
          var chain := s.chains[Slot(s.threads[u].s)];
          forall i | 0 <= i < |chain| ensures chain[i] in s'.heap && s'.heap[chain[i]] == s.heap[chain[i]] {
            assert chain[i] in s.chains[Slot(s.threads[u].s)];
          }
        } else {
          FrameKnows(s, s', s.threads[u]);
        }
      }
    }
    forall i | 0 <= i < |s.results| ensures Found(s', s.results[i].s, s.results[i].node) {
      assert Found(s, s.results[i].s, s.results[i].node);
    }
  }

  lemma CallKeepsInv(s: State, t: nat, str: seq<byte>, s': State)
    requires Inv(s) && Call(s, t, str, s')
    ensures Inv(s')
  {
    hide IsBucket, Slot;
    TableNodesLive(s);
    assert IsChain(s.heap, s.table[Slot(str)], s.chains[Slot(str)]);
    LocalStep(s, t, s');
  }

  lemma ScanEndKeepsInv(s: State, t: nat, s': State)
    requires Inv(s) && ScanEnd(s, t, s')
    ensures Inv(s')
  {
    hide IsBucket, IsChain, Slot;
    TableNodesLive(s);
    LocalStep(s, t, s');
  }

  lemma ScanHitKeepsInv(s: State, t: nat, s': State)
    requires Inv(s) && ScanHit(s, t, s')
    ensures Inv(s')
  {
    hide IsBucket, IsChain, Slot;
    TableNodesLive(s);
    assert Knows(s, s.threads[t]);
    LocalStep(s, t, s');
  }

  lemma ScanNextKeepsInv(s: State, t: nat, s': State)
    requires Inv(s) && ScanNext(s, t, s')
    ensures Inv(s')
  {
    hide IsBucket, Slot;
    TableNodesLive(s);
    var k := Slot(s.threads[t].s);
    assert Knows(s, s.threads[t]) && IsChain(s.heap, s.table[k], s.chains[k]);
    LocalStep(s, t, s');
  }

  lemma AllocateKeepsInv(s: State, t: nat, node: int, next: int, s': State)
    requires Inv(s) && Allocate(s, t, node, next, s')
    ensures Inv(s')
  {
    hide IsBucket, IsChain, Slot, Found;
    TableNodesLive(s);
    assert !InTable(s, node);
    LocalStep(s, t, s');
  }

  lemma LockKeepsInv(s: State, t: nat, s': State)
    requires Inv(s) && Lock(s, t, s')
    ensures Inv(s')
  {
    hide IsBucket, Slot;
    TableNodesLive(s);
    var k := Slot(s.threads[t].s);
    assert IsChain(s.heap, s.table[k], s.chains[k]);
    LocalStep(s, t, s');
  }

  lemma RescanEndKeepsInv(s: State, t: nat, s': State)
    requires Inv(s) && RescanEnd(s, t, s')
    ensures Inv(s')
  {
    hide IsBucket, Slot;
    TableNodesLive(s);
    OwnedIsOutside(s, t);
    var k := Slot(s.threads[t].s);
    assert Knows(s, s.threads[t]) && IsChain(s.heap, s.table[k], s.chains[k]);
    assert s.threads[t].seen == |s.chains[k]|;
    FrameKnows(s, s', s.threads[t]);
    LocalStep(s, t, s');
  }

  lemma RescanHitKeepsInv(s: State, t: nat, s': State)
    requires Inv(s) && RescanHit(s, t, s')
    ensures Inv(s')
  {
    hide IsBucket, Slot;
    TableNodesLive(s);
    OwnedIsOutside(s, t);
    var k := Slot(s.threads[t].s);
    assert Knows(s, s.threads[t]) && IsChain(s.heap, s.table[k], s.chains[k]);
    LocalStep(s, t, s');
  }

  lemma RescanNextKeepsInv(s: State, t: nat, s': State)
    requires Inv(s) && RescanNext(s, t, s')
    ensures Inv(s')
  {
    hide IsBucket, Slot;
    TableNodesLive(s);
    var k := Slot(s.threads[t].s);
    assert Knows(s, s.threads[t]) && IsChain(s.heap, s.table[k], s.chains[k]);
    AbsentOneMore(s.heap, s.chains[k], s.threads[t].seen, s.threads[t].s);
    hide AbsentBefore, Found, IsChain;
    LocalStep(s, t, s');
  }

  lemma AbsentOneMore(heap: map<int, Node>, chain: seq<int>, n: nat, str: seq<byte>)
    requires AbsentBefore(heap, chain, n, str)
    requires n < |chain| ==> chain[n] in heap && heap[chain[n]].contents != str
    ensures n < |chain| ==> AbsentBefore(heap, chain, n + 1, str)
  {
  }

  lemma UnlockKeepsInv(s: State, t: nat, s': State)
    requires Inv(s) && Unlock(s, t, s')
    ensures Inv(s')
  {
    hide IsBucket, IsChain, Slot;
    TableNodesLive(s);
    assert Knows(s, s.threads[t]);
    LocalStep(s, t, s');
  }

  lemma PublishTable(s: State, t: nat, s': State)
    requires Inv(s) && Publish(s, t, s')
    ensures TableInv(s')
  {
    hide Slot, LockInv;
    var str, node := s.threads[t].s, s.threads[t].node;
    var slot := Slot(str);
    assert Knows(s, s.threads[t]);
    forall k | 0 <= k < TABLE_SIZE
      ensures IsChain(s'.heap, s'.table[k], s'.chains[k]) && IsBucket(s'.heap, k, s'.chains[k])
    {
      assert IsChain(s.heap, s.table[k], s.chains[k]) && IsBucket(s.heap, k, s.chains[k]);
      if k == slot {
        var chain, chain' := s.chains[k], s'.chains[k];
        forall i | 0 <= i < |chain'|
          ensures chain'[i] != 0 && chain'[i] in s.heap && s.heap[chain'[i]].next == First(chain', i + 1)
        {
          assert i > 0 ==> chain'[i] == chain[i - 1] && First(chain', i + 1) == First(chain, i - 1 + 1);
        }
      }
    }
  }

  lemma PublishKeepsInv(s: State, t: nat, s': State)
    requires Inv(s) && Publish(s, t, s')
    ensures Inv(s')
  {
    hide IsBucket, IsChain, Slot;
    PublishTable(s, t, s');
    var node, slot := s.threads[t].node, Slot(s.threads[t].s);
    forall n | InTable(s', n) ensures InTable(s, n) || n == node {
      var k :| 0 <= k < |s'.chains| && n in s'.chains[k];
      assert n == node || n in s.chains[k];
    }
    forall u | 0 <= u < |s'.threads| ensures Knows(s', s'.threads[u]) {
      assert Knows(s, s.threads[u]);
      assert u != t ==> !Holds(s.threads[u]);
    }
    forall i | 0 <= i < |s.results| ensures Found(s', s.results[i].s, s.results[i].node) {
      assert Found(s, s.results[i].s, s.results[i].node);
    }
  }

  lemma StepKeepsInv(s: State, t: nat, a: Action, s': State)
    requires Inv(s) && Step(s, t, a, s')
    ensures Inv(s')
  {
    hide Inv, Call, ScanEnd, ScanHit, ScanNext, Allocate, Lock, RescanEnd, RescanHit, RescanNext, Publish, Unlock;
    match a
    case ACall(str) => CallKeepsInv(s, t, str, s');
    case AScanEnd => ScanEndKeepsInv(s, t, s');
    case AScanHit => ScanHitKeepsInv(s, t, s');
    case AScanNext => ScanNextKeepsInv(s, t, s');
    case AAllocate(node, next) => AllocateKeepsInv(s, t, node, next, s');
    case ALock => LockKeepsInv(s, t, s');
    case ARescanEnd => RescanEndKeepsInv(s, t, s');
    case ARescanHit => RescanHitKeepsInv(s, t, s');
    case ARescanNext => RescanNextKeepsInv(s, t, s');
    case APublish => PublishKeepsInv(s, t, s');
    case AUnlock => UnlockKeepsInv(s, t, s');
  }

  // ----- whole runs ------------------------------------------------------------------------

  ghost predicate HasStep(s: State, s': State) {
    exists t, a :: Step(s, t, a, s')
  }

  ghost predicate IsRun(states: seq<State>) {
    states != [] && forall i | 0 <= i < |states| - 1 :: HasStep(states[i], states[i + 1])
  }

  lemma {:induction false} RunKeepsInv(states: seq<State>, i: nat)
    requires IsRun(states) && Inv(states[0]) && i < |states|
    ensures Inv(states[i])
  {
    hide Inv, Step;
    if i > 0 {
      RunKeepsInv(states, i - 1);
      assert HasStep(states[i - 1], states[i - 1 + 1]);
      var t, a :| Step(states[i - 1], t, a, states[i]);
      StepKeepsInv(states[i - 1], t, a, states[i]);
    }
  }

  /** Nodes once in a bucket stay there, with their contents: the bucket only grows at its head. */
  ghost predicate Extends(s: State, s': State) {
    && |s.chains| == |s'.chains| == TABLE_SIZE
    && (forall k | 0 <= k < TABLE_SIZE :: IsSuffix(s.chains[k], s'.chains[k]))
    && (forall k, n | 0 <= k < TABLE_SIZE && n in s.chains[k] ::
          n in s.heap && n in s'.heap && s'.heap[n].contents == s.heap[n].contents)
    && s.results <= s'.results
  }

  ghost predicate IsSuffix(a: seq<int>, b: seq<int>) {
    |a| <= |b| && b[|b| - |a|..] == a
  }

  lemma StepExtends(s: State, t: nat, a: Action, s': State)
    requires Inv(s) && Step(s, t, a, s')
    ensures Extends(s, s')
  {
    hide IsChain, Slot, LockInv, Knows;
    TableNodesLive(s);
    if a.ARescanEnd? || a.ARescanHit? {
      OwnedIsOutside(s, t);
    }
  }

  lemma {:induction false} RunExtends(states: seq<State>, i: nat, j: nat)
    requires IsRun(states) && Inv(states[0]) && i <= j < |states|
    ensures Extends(states[i], states[j])
    decreases j
  {
    hide Inv, Step, HasStep;
    RunKeepsInv(states, i);
    if i < j {
      RunExtends(states, i, j - 1);
      RunKeepsInv(states, j - 1);
      assert HasStep(states[j - 1], states[j - 1 + 1]);
      var t, a := StepOf(states[j - 1], states[j]);
      StepExtends(states[j - 1], t, a, states[j]);
      ExtendsTransitive(states[i], states[j - 1], states[j]);
    } else {
      ExtendsSelf(states[i]);
    }
  }

  lemma StepOf(s: State, s': State) returns (t: nat, a: Action)
    requires HasStep(s, s')
    ensures Step(s, t, a, s')
  {
    hide Step;
    t, a :| Step(s, t, a, s');
  }

  lemma ExtendsSelf(s: State)
    requires Inv(s)
    ensures Extends(s, s)
  {
    TableNodesLive(s);
  }

  lemma ExtendsTransitive(a: State, b: State, c: State)
    requires Extends(a, b) && Extends(b, c)
    ensures Extends(a, c)
  {
    forall k | 0 <= k < TABLE_SIZE ensures IsSuffix(a.chains[k], c.chains[k]) {
      assert IsSuffix(a.chains[k], b.chains[k]) && IsSuffix(b.chains[k], c.chains[k]);
      SuffixTransitive(a.chains[k], b.chains[k], c.chains[k]);
    }
    forall k, n | 0 <= k < TABLE_SIZE && n in a.chains[k] ensures n in b.chains[k] {
      assert IsSuffix(a.chains[k], b.chains[k]);
    }
  }

  lemma SuffixTransitive(a: seq<int>, b: seq<int>, c: seq<int>)
    requires IsSuffix(a, b) && IsSuffix(b, c)
    ensures IsSuffix(a, c)
  {
    assert c[|c| - |a|..] == b[|b| - |a|..] by {
      assert b == c[|c| - |b|..];
    }
  }

  /** Interning is canonical under every interleaving: any two calls that have returned, early or
    * late, gave the same node exactly if they were given equal strings, and the node holds that
    * string for good.
    */
  lemma InterningIsCanonical(n: nat, states: seq<State>, i: nat, k: nat, l: nat)
    requires IsRun(states) && states[0] == Init(n) && i < |states|
    requires k < |states[i].results| && l < |states[i].results|
    ensures var rs := states[i].results;
      rs[k].node == rs[l].node <==> rs[k].s == rs[l].s
    ensures forall j | i <= j < |states| :: Returned(states[j], states[i].results[k])
  {
    InitInv(n);
    RunKeepsInv(states, i);
    EqualStringsShareNode(states[i], states[i].results[k], states[i].results[l]);
    forall j | i <= j < |states| ensures Returned(states[j], states[i].results[k]) {
      RunExtends(states, i, j);
      assert Found(states[i], states[i].results[k].s, states[i].results[k].node);
    }
  }

  /** The node a call returned is live and holds the string it was called with. */
  ghost predicate Returned(s: State, r: Result) {
    r in s.results && r.node in s.heap && s.heap[r.node].contents == r.s
  }

  lemma EqualStringsShareNode(s: State, r1: Result, r2: Result)
    requires TableInv(s) && Found(s, r1.s, r1.node) && Found(s, r2.s, r2.node)
    ensures r1.node == r2.node <==> r1.s == r2.s
  {
    hide Slot, IsChain;
    if r1.s == r2.s {
      var k := Slot(r1.s);
      var chain := s.chains[k];
      assert IsBucket(s.heap, k, chain);
      var i :| 0 <= i < |chain| && chain[i] == r1.node;
      var j :| 0 <= j < |chain| && chain[j] == r2.node;
      assert i == j;
    }
  }

  /** The pointers the two scans follow are NULL or to live nodes: the tests on the heap that the
    * scanning steps state never hold a thread back.
    */
  lemma ScansFollowLiveNodes(n: nat, states: seq<State>, i: nat, t: nat)
    requires IsRun(states) && states[0] == Init(n) && i < |states| && t < |states[i].threads|
    ensures states[i].threads[t].Scanning? || states[i].threads[t].Rescanning? ==>
      states[i].threads[t].p == 0 || states[i].threads[t].p in states[i].heap
  {
    InitInv(n);
    RunKeepsInv(states, i);
    ScansAreAtLiveNodes(states[i], t);
  }

  /** No bucket ever holds two nodes with equal contents. */
  lemma NoDuplicates(n: nat, states: seq<State>, i: nat, k: nat)
    requires IsRun(states) && states[0] == Init(n) && i < |states| && k < TABLE_SIZE
    ensures |states[i].chains| == |states[i].table| == TABLE_SIZE
    ensures IsChain(states[i].heap, states[i].table[k], states[i].chains[k])
    ensures IsBucket(states[i].heap, k, states[i].chains[k])
  {
    InitInv(n);
    RunKeepsInv(states, i);
  }

  // ----- what was asked for ------------------------------------------------------------------

  /** What a thread does. */
  datatype Move = Move(t: nat, a: Action)

  /** A run with the moves that make it. */
  ghost predicate IsTrace(states: seq<State>, moves: seq<Move>) {
    |states| == |moves| + 1 && forall i | 0 <= i < |moves| :: StepAt(states, moves, i)
  }

  ghost predicate StepAt(states: seq<State>, moves: seq<Move>, i: nat)
    requires i < |moves| && |states| == |moves| + 1
  {
    Step(states[i], moves[i].t, moves[i].a, states[i + 1])
  }

  /** The string that thread t called struniq with last. */
  function Argument(moves: seq<Move>, t: nat): Option<seq<byte>> {
    if moves == [] then None
    else
      var last := moves[|moves| - 1];
      if last.t == t && last.a.ACall? then Some(last.a.str) else Argument(moves[..|moves| - 1], t)
  }

  /** The strings that the calls that have returned were made with, in the order of their returns. */
  function Returns(moves: seq<Move>): seq<seq<byte>> {
    if moves == [] then []
    else
      var before, last := moves[..|moves| - 1], moves[|moves| - 1];
      if last.a.AScanHit? || last.a.AUnlock?
      then Returns(before) + (match Argument(before, last.t) case Some(str) => [str] case None => [])
      else Returns(before)
  }

  /** A thread in a call keeps the string it was called with, and so does every result. */
  ghost predicate ArgumentInv(s: State, moves: seq<Move>) {
    && (forall t | 0 <= t < |s.threads| && !s.threads[t].Idle? :: Argument(moves, t) == Some(s.threads[t].s))
    && |s.results| == |Returns(moves)|
    && forall k | 0 <= k < |s.results| :: s.results[k].s == Returns(moves)[k]
  }

  lemma StepKeepsArguments(s: State, t: nat, a: Action, s': State, moves: seq<Move>)
    requires ArgumentInv(s, moves) && Step(s, t, a, s')
    ensures ArgumentInv(s', moves + [Move(t, a)])
  {
    hide Slot;
    assert (moves + [Move(t, a)])[..|moves|] == moves;
  }

  lemma {:induction false} TraceInv(n: nat, states: seq<State>, moves: seq<Move>)
    requires IsTrace(states, moves) && states[0] == Init(n)
    ensures IsRun(states) && Inv(states[|moves|]) && ArgumentInv(states[|moves|], moves)
    decreases |moves|
  {
    hide Inv, Step, ArgumentInv;
    if moves == [] {
      InitInv(n);
      assert ArgumentInv(states[0], moves) by { InitArguments(n); }
    } else {
      var k := |moves| - 1;
      var begin, before := states[..k + 1], moves[..k];
      forall i | 0 <= i < k ensures StepAt(begin, before, i) {
        assert StepAt(states, moves, i);
      }
      TraceInv(n, begin, before);
      assert StepAt(states, moves, k);
      StepKeepsInv(states[k], moves[k].t, moves[k].a, states[k + 1]);
      StepKeepsArguments(states[k], moves[k].t, moves[k].a, states[k + 1], before);
      assert moves == before + [moves[k]];
      forall i | 0 <= i < |states| - 1 ensures HasStep(states[i], states[i + 1]) {
        assert StepAt(states, moves, i);
      }
    }
  }

  lemma InitArguments(n: nat)
    ensures ArgumentInv(Init(n), [])
  {
  }

  /** Two calls of struniq that have returned gave the same node exactly if their arguments were equal,
    * and a call's node holds its argument.
    */
  lemma EqualArgumentsShareNode(n: nat, states: seq<State>, moves: seq<Move>, k: nat, l: nat)
    requires IsTrace(states, moves) && states[0] == Init(n)
    requires k < |Returns(moves)| && l < |Returns(moves)|
    ensures var s := states[|moves|];
      && |s.results| == |Returns(moves)|
      && (s.results[k].node == s.results[l].node <==> Returns(moves)[k] == Returns(moves)[l])
      && s.results[k].node in s.heap && s.heap[s.results[k].node].contents == Returns(moves)[k]
  {
    hide Inv;
    TraceInv(n, states, moves);
    InterningIsCanonical(n, states, |moves|, k, l);
    assert Returned(states[|moves|], states[|moves|].results[k]);
  }

  // ----- no node is leaked ---------------------------------------------------------------------

  ghost predicate IsOwnedNode(s: State, n: int) {
    exists t | 0 <= t < |s.threads| :: Owns(s.threads[t]) && s.threads[t].node == n
  }

  /** Every live node is in the table or prepared by a thread. */
  ghost predicate NoneLeaked(s: State) {
    forall n | n in s.heap :: InTable(s, n) || IsOwnedNode(s, n)
  }

  lemma StepLeaksNothing(s: State, t: nat, a: Action, s': State)
    requires Inv(s) && NoneLeaked(s) && Step(s, t, a, s')
    ensures NoneLeaked(s')
  {
    hide Inv, Step, InTable, IsOwnedNode;
    forall n | n in s'.heap ensures InTable(s', n) || IsOwnedNode(s', n) {
      if n !in s.heap {
        NewNodeIsOwned(s, t, a, s', n);
      } else if InTable(s, n) {
        TableNodeStays(s, t, a, s', n);
      } else {
        OwnedNodeStays(s, t, a, s', n);
      }
    }
  }

  lemma NewNodeIsOwned(s: State, t: nat, a: Action, s': State, n: int)
    requires Inv(s) && Step(s, t, a, s') && n !in s.heap && n in s'.heap
    ensures IsOwnedNode(s', n)
  {
    hide Slot, TableInv, LockInv, Knows;
    if a.AAllocate? {
      assert Owns(s'.threads[t]);
    }
  }

  lemma TableNodeStays(s: State, t: nat, a: Action, s': State, n: int)
    requires Inv(s) && Step(s, t, a, s') && InTable(s, n)
    ensures InTable(s', n)
  {
    hide Inv, Slot;
    var k :| 0 <= k < |s.chains| && n in s.chains[k];
    assert n in s'.chains[k];
  }

  lemma OwnedNodeStays(s: State, t: nat, a: Action, s': State, n: int)
    requires Inv(s) && Step(s, t, a, s') && IsOwnedNode(s, n) && n in s'.heap
    ensures InTable(s', n) || IsOwnedNode(s', n)
  {
    hide Inv, Slot;
    var u :| 0 <= u < |s.threads| && Owns(s.threads[u]) && s.threads[u].node == n;
    if a.APublish? && u == t {
      var k := Slot(s.threads[t].s);
      assert n in s'.chains[k];
    } else {
      assert Owns(s'.threads[u]) && s'.threads[u].node == n;
    }
  }

  /** Over any run, each live node is in the table or prepared by a thread. */
  lemma {:induction false} NoNodeIsLeaked(n: nat, states: seq<State>, i: nat)
    requires IsRun(states) && states[0] == Init(n) && i < |states|
    ensures NoneLeaked(states[i])
  {
    hide Inv, Step, NoneLeaked;
    InitInv(n);
    if i == 0 {
      assert NoneLeaked(Init(n)) by { NothingLeakedYet(n); }
    } else {
      NoNodeIsLeaked(n, states, i - 1);
      RunKeepsInv(states, i - 1);
      assert HasStep(states[i - 1], states[i - 1 + 1]);
      var t, a := StepOf(states[i - 1], states[i]);
      StepLeaksNothing(states[i - 1], t, a, states[i]);
    }
  }

  lemma NothingLeakedYet(n: nat)
    ensures NoneLeaked(Init(n))
  {
  }

  // ----- nobody is held back -------------------------------------------------------------------

  ghost predicate Enabled(s: State, t: nat, a: Action) {
    exists s' :: Step(s, t, a, s')
  }

  /** A thread can always take its next step, but for a lock that another thread holds. */
  lemma ThreadCanStep(s: State, t: nat)
    requires Inv(s) && t < |s.threads|
    ensures match s.threads[t]
      case Idle => forall str :: Enabled(s, t, ACall(str))
      case Scanning(str, p) =>
        if p == 0 then Enabled(s, t, AScanEnd)
        else p in s.heap && Enabled(s, t, if s.heap[p].contents == str then AScanHit else AScanNext)
      case Missed(str) => forall node, next | node != 0 && node !in s.heap :: Enabled(s, t, AAllocate(node, next))
      case Prepared(_, _) => s.lock == Nobody ==> Enabled(s, t, ALock)
      case Rescanning(str, _, p, _) =>
        if p == 0 then Enabled(s, t, ARescanEnd)
        else p in s.heap && Enabled(s, t, if s.heap[p].contents == str then ARescanHit else ARescanNext)
      case Linked(_, _) => Enabled(s, t, APublish)
      case Leaving(_, _) => Enabled(s, t, AUnlock)
  {
    hide Inv, Slot;
    TableIsThere(s, t);
    match s.threads[t]
    case Idle =>
      forall str ensures Enabled(s, t, ACall(str)) {
        assert Step(s, t, ACall(str), s.(threads := s.threads[t := Scanning(str, s.table[Slot(str)])]));
      }
    case Scanning(_, _) => ScannerCanStep(s, t);
    case Missed(str) =>
      forall node, next | node != 0 && node !in s.heap ensures Enabled(s, t, AAllocate(node, next)) {
        assert Step(s, t, AAllocate(node, next),
          s.(heap := s.heap[node := Node(next, str)], threads := s.threads[t := Prepared(str, node)]));
      }
    case Prepared(str, node) =>
      assert s.lock == Nobody ==>
        Step(s, t, ALock, s.(lock := By(t), threads := s.threads[t := Rescanning(str, node, s.table[Slot(str)], 0)]));
    case Rescanning(_, _, _, _) => RescannerCanStep(s, t);
    case Linked(str, node) =>
      assert Step(s, t, APublish, s.(table := s.table[Slot(str) := node], threads := s.threads[t := Leaving(str, node)],
                                     chains := s.chains[Slot(str) := [node] + s.chains[Slot(str)]]));
    case Leaving(str, found) =>
      assert Step(s, t, AUnlock,
        s.(lock := Nobody, threads := s.threads[t := Idle], results := s.results + [Result(str, found)]));
  }

  lemma TableIsThere(s: State, t: nat)
    requires Inv(s) && t < |s.threads|
    ensures IsAt(s, t)
  {
  }

  /** The node that a scan is at is live, and so is the one prepared. */
  lemma ScansAreAtLiveNodes(s: State, t: nat)
    requires Inv(s) && t < |s.threads|
    ensures s.threads[t].Scanning? ==> s.threads[t].p == 0 || s.threads[t].p in s.heap
    ensures s.threads[t].Rescanning? ==> s.threads[t].p == 0 || s.threads[t].p in s.heap
    ensures s.threads[t].Rescanning? ==> s.threads[t].node in s.heap
  {
    hide Slot, LockInv;
    if s.threads[t].Scanning? || s.threads[t].Rescanning? {
      var k := Slot(s.threads[t].s);
      assert Knows(s, s.threads[t]) && IsBucket(s.heap, k, s.chains[k]);
    }
  }

  lemma ScannerCanStep(s: State, t: nat)
    requires Inv(s) && t < |s.threads| && s.threads[t].Scanning?
    ensures var Scanning(str, p) := s.threads[t];
      if p == 0 then Enabled(s, t, AScanEnd)
      else p in s.heap && Enabled(s, t, if s.heap[p].contents == str then AScanHit else AScanNext)
  {
    hide Inv, Slot;
    TableIsThere(s, t);
    ScansAreAtLiveNodes(s, t);
    var Scanning(str, p) := s.threads[t];
    if p == 0 {
      assert Step(s, t, AScanEnd, s.(threads := s.threads[t := Missed(str)]));
    } else {
      assert s.heap[p].contents == str ==>
        Step(s, t, AScanHit, s.(threads := s.threads[t := Idle], results := s.results + [Result(str, p)]));
      assert s.heap[p].contents != str ==>
        Step(s, t, AScanNext, s.(threads := s.threads[t := Scanning(str, s.heap[p].next)]));
    }
  }

  lemma RescannerCanStep(s: State, t: nat)
    requires Inv(s) && t < |s.threads| && s.threads[t].Rescanning?
    ensures var Rescanning(str, node, p, seen) := s.threads[t];
      if p == 0 then Enabled(s, t, ARescanEnd)
      else p in s.heap && Enabled(s, t, if s.heap[p].contents == str then ARescanHit else ARescanNext)
  {
    hide Inv, Slot;
    TableIsThere(s, t);
    ScansAreAtLiveNodes(s, t);
    var Rescanning(str, node, p, seen) := s.threads[t];
    if p == 0 {
      assert Step(s, t, ARescanEnd, s.(heap := s.heap[node := s.heap[node].(next := s.table[Slot(str)])],
                                       threads := s.threads[t := Linked(str, node)]));
    } else {
      assert s.heap[p].contents == str ==>
        Step(s, t, ARescanHit, s.(heap := s.heap - {node}, threads := s.threads[t := Leaving(str, p)]));
      assert s.heap[p].contents != str ==>
        Step(s, t, ARescanNext, s.(threads := s.threads[t := Rescanning(str, node, s.heap[p].next, seen + 1)]));
    }
  }
}
