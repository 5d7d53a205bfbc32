/** The intrusive doubly linked list over a static pool (LINKLIST_IMPL).  A node is its index in the
    pool, NULL is -1; the fields a list is declared with live in an array of its user's, under the
    same index.  The pool has one node more than it can hand out: that one ends the free list. */
module LinkLists {
  import opened Lists

  datatype Link = Link(prev: int, next: int)

  /** The links, the free list's head and, for the proofs, who owns which node: the list in use, the
      nodes handed out but on no list, and the free list. */
  datatype Pool = Pool(links: seq<Link>, freeHead: int, live: seq<nat>, loose: set<nat>, spare: seq<nat>)

  function HeadOf(list: seq<nat>): int { if list == [] then NULL else list[0] }

  ghost predicate Forward(links: seq<Link>, list: seq<nat>) {
    forall i :: 0 <= i < |list| ==> list[i] < |links| && links[list[i]].next == NextOf(list, i)
  }

  ghost predicate Backward(links: seq<Link>, list: seq<nat>) {
    forall i :: 0 <= i < |list| ==> list[i] < |links| && links[list[i]].prev == PrevOf(list, i)
  }

  /** Every node has exactly one owner, once. */
  ghost predicate Owned(size: nat, live: seq<nat>, loose: set<nat>, spare: seq<nat>) {
    && Distinct(live) && Distinct(spare)
    && |live| + |loose| + |spare| == size + 1
    && (forall n: nat :: n in live ==> n <= size && n !in loose && n !in spare)
    && (forall n: nat :: n in loose ==> n <= size && n !in spare)
    && (forall n: nat :: n in spare ==> n <= size)
    && (forall n: nat :: n <= size ==> n in live || n in loose || n in spare)
  }

  /** A pool in service: the list in use is doubly linked, the free list ends in the node that is never handed out. */
  ghost predicate Ready(size: nat, p: Pool) {
    && |p.links| == size + 1
    && Owned(size, p.live, p.loose, p.spare)
    && Forward(p.links, p.live) && Backward(p.links, p.live) && Forward(p.links, p.spare)
    && p.spare != [] && p.spare[|p.spare| - 1] == size && p.freeHead == p.spare[0]
  }

  /** A pool nothing was taken from yet, as the loader leaves it. */
  ghost predicate Untouched(size: nat, p: Pool) {
    && |p.links| == size + 1 && p.links[size].next == NULL
    && p.freeHead == NULL && p.live == [] && p.loose == {} && p.spare == []
  }

  ghost predicate Consistent(size: nat, p: Pool) { Untouched(size, p) || Ready(size, p) }

  // ---------- what each operation does to the pool ----------

  /** The initialising branch of new. */
  ghost function Started(size: nat, p: Pool): Pool
    requires Consistent(size, p)
  {
    if p.freeHead != NULL then p
    else Pool(seq(size + 1, (i: nat) requires i <= size => if i < size then p.links[i].(next := i + 1) else p.links[i]),
              0, [], {}, seq(size + 1, (i: nat) => i))
  }

  ghost function Taken(p: Pool): Pool
    requires p.spare != [] && p.spare[0] < |p.links|
  {
    var n := p.spare[0];
    Pool(p.links[n := Link(NULL, NULL)], p.links[n].next, p.live, p.loose + {n}, p.spare[1..])
  }

  function With<T>(s: seq<T>, k: nat, t: T): (r: seq<T>)
    requires k <= |s|
    ensures |r| == |s| + 1
    ensures forall i :: 0 <= i < |r| ==> r[i] == if i < k then s[i] else if i == k then t else s[i - 1]
  {
    s[..k] + [t] + s[k..]
  }

  function SetNext(links: seq<Link>, n: int, to: int): (r: seq<Link>)
    requires n != NULL ==> 0 <= n < |links|
    ensures |r| == |links|
  {
    if n == NULL then links else links[n := links[n].(next := to)]
  }

  function SetPrev(links: seq<Link>, n: int, to: int): (r: seq<Link>)
    requires n != NULL ==> 0 <= n < |links|
    ensures |r| == |links|
  {
    if n == NULL then links else links[n := links[n].(prev := to)]
  }

  /** Node n linked in as the k-th. */
  ghost function Inserted(size: nat, p: Pool, n: nat, k: nat): Pool
    requires Ready(size, p) && n in p.loose && k <= |p.live|
  {
    InUse(size, p);
    var prev, next := PrevOf(p.live, k), if k < |p.live| then p.live[k] else NULL;
    p.(links := SetPrev(SetNext(p.links[n := Link(prev, next)], prev, n), next, n),
       live := With(p.live, k, n), loose := p.loose - {n})
  }

  /** The k-th node linked out; its own links stay as they were. */
  ghost function Removed(size: nat, p: Pool, k: nat): Pool
    requires Ready(size, p) && k < |p.live|
  {
    InUse(size, p);
    var prev, next := PrevOf(p.live, k), NextOf(p.live, k);
    p.(links := SetPrev(SetNext(p.links, prev, next), next, prev),
       live := Without(p.live, k), loose := p.loose + {p.live[k]})
  }

  ghost function Freed(p: Pool, n: nat): Pool
    requires n < |p.links|
  {
    p.(links := p.links[n := p.links[n].(next := p.freeHead)], freeHead := n,
       loose := p.loose - {n}, spare := [n] + p.spare)
  }

  // ---------- each keeps the pool in order ----------

  lemma InUse(size: nat, p: Pool)
    requires Ready(size, p)
    ensures forall i :: 0 <= i < |p.live| ==> p.live[i] <= size && p.live[i] !in p.loose && p.live[i] !in p.spare
    ensures forall i :: 0 <= i < |p.spare| ==> p.spare[i] <= size && p.spare[i] !in p.loose && p.spare[i] !in p.live
    ensures forall n :: n in p.loose ==> n <= size
  {
    assert forall i :: 0 <= i < |p.live| ==> p.live[i] in p.live;
    assert forall i :: 0 <= i < |p.spare| ==> p.spare[i] in p.spare;
  }

  lemma StartedReady(size: nat, p: Pool)
    requires Consistent(size, p)
    ensures Ready(size, Started(size, p))
  {
    if p.freeHead == NULL {
      var q := Started(size, p);
      forall n: nat | n <= size ensures q.spare[n] == n && n in q.spare {}
    }
  }

  lemma ForwardFrame(links: seq<Link>, after: seq<Link>, list: seq<nat>)
    requires Forward(links, list) && |after| == |links|
    requires forall i :: 0 <= i < |list| ==> after[list[i]].next == links[list[i]].next
    ensures Forward(after, list)
  {}

  lemma BackwardFrame(links: seq<Link>, after: seq<Link>, list: seq<nat>)
    requires Backward(links, list) && |after| == |links|
    requires forall i :: 0 <= i < |list| ==> after[list[i]].prev == links[list[i]].prev
    ensures Backward(after, list)
  {}

  lemma ForwardTail(links: seq<Link>, list: seq<nat>)
    requires Forward(links, list) && list != []
    ensures Forward(links, list[1..]) && links[list[0]].next == HeadOf(list[1..])
  {
    var rest := list[1..];
    forall i | 0 <= i < |rest| ensures rest[i] < |links| && links[rest[i]].next == NextOf(rest, i) {
      assert links[list[i + 1]].next == NextOf(list, i + 1);
    }
    assert links[list[0]].next == NextOf(list, 0);
  }

  lemma ForwardCons(links: seq<Link>, n: nat, list: seq<nat>)
    requires Forward(links, list) && n < |links| && links[n].next == HeadOf(list)
    ensures Forward(links, [n] + list)
  {
    var whole := [n] + list;
    forall i | 0 <= i < |whole| ensures whole[i] < |links| && links[whole[i]].next == NextOf(whole, i) {
      if i > 0 { assert whole[i] == list[i - 1] && links[list[i - 1]].next == NextOf(list, i - 1); }
    }
  }

  lemma OwnedTaken(size: nat, live: seq<nat>, loose: set<nat>, spare: seq<nat>)
    requires Owned(size, live, loose, spare) && spare != []
    ensures Owned(size, live, loose + {spare[0]}, spare[1..])
  {
    var n, rest := spare[0], spare[1..];
    assert spare == [n] + rest && n in spare;
    assert forall i :: 0 <= i < |rest| ==> rest[i] == spare[i + 1];
    assert forall m :: m in spare <==> m == n || m in rest;
    assert n !in rest;
    assert |loose + {n}| == |loose| + 1;
  }

  lemma OwnedInserted(size: nat, live: seq<nat>, loose: set<nat>, spare: seq<nat>, n: nat, k: nat)
    requires Owned(size, live, loose, spare) && n in loose && k <= |live|
    ensures Owned(size, With(live, k, n), loose - {n}, spare)
  {
    var with := With(live, k, n);
    assert live == live[..k] + live[k..];
    assert forall m :: m in with <==> m == n || m in live;
    assert forall i :: 0 <= i < |live| ==> live[i] in live;
    assert Distinct(with);
    assert loose == (loose - {n}) + {n};
  }

  lemma OwnedRemoved(size: nat, live: seq<nat>, loose: set<nat>, spare: seq<nat>, k: nat)
    requires Owned(size, live, loose, spare) && k < |live|
    ensures Owned(size, Without(live, k), loose + {live[k]}, spare)
  {
    var n, without := live[k], Without(live, k);
    assert live == live[..k] + [n] + live[k + 1..] && n in live;
    assert forall m :: m in live <==> m == n || m in without;
    assert n !in without;
    assert |loose + {n}| == |loose| + 1;
  }

  lemma OwnedFreed(size: nat, live: seq<nat>, loose: set<nat>, spare: seq<nat>, n: nat)
    requires Owned(size, live, loose, spare) && n in loose
    ensures Owned(size, live, loose - {n}, [n] + spare)
  {
    var longer := [n] + spare;
    assert forall m :: m in longer <==> m == n || m in spare;
    assert forall i :: 0 <= i < |spare| ==> spare[i] in spare;
    assert loose == (loose - {n}) + {n};
  }

  lemma TakenReady(size: nat, p: Pool)
    requires Ready(size, p) && |p.spare| > 1
    ensures Ready(size, Taken(p))
    ensures p.spare[0] !in p.live && p.spare[0] !in p.loose
  {
    var q, n := Taken(p), p.spare[0];
    InUse(size, p);
    OwnedTaken(size, p.live, p.loose, p.spare);
    assert forall i :: 1 <= i < |p.spare| ==> p.spare[i] != n;
    ForwardTail(p.links, p.spare);
    hide Owned, Forward, Backward;
    ForwardFrame(p.links, q.links, q.spare);
    ForwardFrame(p.links, q.links, p.live);
    BackwardFrame(p.links, q.links, p.live);
  }

  lemma FreedReady(size: nat, p: Pool, n: nat)
    requires Ready(size, p) && n in p.loose
    ensures Ready(size, Freed(p, n))
  {
    InUse(size, p);
    var q := Freed(p, n);
    OwnedFreed(size, p.live, p.loose, p.spare, n);
    hide Owned, Forward, Backward;
    ForwardFrame(p.links, q.links, p.spare);
    ForwardCons(q.links, n, p.spare);
    ForwardFrame(p.links, q.links, p.live);
    BackwardFrame(p.links, q.links, p.live);
  }

  /** Where the links change, and to what. */
  lemma InsertedAt(size: nat, p: Pool, n: nat, k: nat, m: nat)
    requires Ready(size, p) && n in p.loose && k <= |p.live| && m <= size
    ensures |Inserted(size, p, n, k).links| == size + 1
    ensures var was, now := p.links[m], Inserted(size, p, n, k).links[m];
            && now.next == (if m == n then (if k < |p.live| then p.live[k] else NULL)
                            else if k > 0 && m == p.live[k - 1] then n else was.next)
            && now.prev == (if m == n then PrevOf(p.live, k)
                            else if k < |p.live| && m == p.live[k] then n else was.prev)
  {
    InUse(size, p);
    hide Owned, Forward, Backward;
  }

  lemma RemovedAt(size: nat, p: Pool, k: nat, m: nat)
    requires Ready(size, p) && k < |p.live| && m <= size
    ensures |Removed(size, p, k).links| == size + 1
    ensures var was, now := p.links[m], Removed(size, p, k).links[m];
            && now.next == (if k > 0 && m == p.live[k - 1] then NextOf(p.live, k) else was.next)
            && now.prev == (if k + 1 < |p.live| && m == p.live[k + 1] then PrevOf(p.live, k) else was.prev)
  {
    InUse(size, p);
    hide Owned, Forward, Backward;
  }

  lemma DistinctAt(s: seq<nat>, i: nat, j: nat)
    requires Distinct(s) && i < |s| && j < |s| && s[i] == s[j]
    ensures i == j
  {}

  lemma InsertedReady(size: nat, p: Pool, n: nat, k: nat)
    requires Ready(size, p) && n in p.loose && k <= |p.live|
    ensures Ready(size, Inserted(size, p, n, k))
  {
    OwnedInserted(size, p.live, p.loose, p.spare, n, k);
    InsertedParts(size, p, n, k);
    InsertedLive(size, p, n, k);
    InsertedSpare(size, p, n, k);
    hide Owned, Inserted, Forward, Backward;
  }

  lemma InsertedLive(size: nat, p: Pool, n: nat, k: nat)
    requires Ready(size, p) && n in p.loose && k <= |p.live|
    ensures var q := Inserted(size, p, n, k);
            |q.links| == size + 1 && Forward(q.links, q.live) && Backward(q.links, q.live)
  {
    InsertedParts(size, p, n, k);
    InsertedAt(size, p, n, k, 0);
    hide Owned, Inserted, Ready, With;
    var q := Inserted(size, p, n, k);
    forall i | 0 <= i < |q.live|
      ensures q.live[i] <= size
      ensures q.links[q.live[i]].next == NextOf(q.live, i) && q.links[q.live[i]].prev == PrevOf(q.live, i)
    {
      InsertedLinks(size, p, n, k, i);
    }
  }

  lemma InsertedSpare(size: nat, p: Pool, n: nat, k: nat)
    requires Ready(size, p) && n in p.loose && k <= |p.live|
    ensures Forward(Inserted(size, p, n, k).links, p.spare)
  {
    InUse(size, p);
    InsertedAt(size, p, n, k, 0);
    hide Owned, Inserted, Backward;
    var q := Inserted(size, p, n, k);
    forall i | 0 <= i < |p.spare| ensures q.links[p.spare[i]].next == p.links[p.spare[i]].next {
      InsertedAt(size, p, n, k, p.spare[i]);
    }
    ForwardFrame(p.links, q.links, p.spare);
  }

  lemma InsertedLinks(size: nat, p: Pool, n: nat, k: nat, i: nat)
    requires Ready(size, p) && n in p.loose && k <= |p.live| && i <= |p.live|
    ensures var q := Inserted(size, p, n, k);
            && |q.links| == size + 1 && |q.live| == |p.live| + 1 && q.live[i] <= size
            && q.links[q.live[i]].next == NextOf(q.live, i) && q.links[q.live[i]].prev == PrevOf(q.live, i)
  {
    InUse(size, p);
    InsertedParts(size, p, n, k);
    LiveLinks(size, p);
    hide Owned, Inserted, With, Forward, Backward, Distinct, Ready, NextOf, PrevOf;
    WithNeighbours(p.live, k, n, i);
    InsertedAt(size, p, n, k, With(p.live, k, n)[i]);
  }

  /** How neighbours change when n is put in as the k-th: only around it. */
  lemma WithNeighbours(list: seq<nat>, k: nat, n: nat, i: nat)
    requires Distinct(list) && k <= |list| && i <= |list| && forall j :: 0 <= j < |list| ==> list[j] != n
    ensures var m := With(list, k, n)[i];
            var j := if i < k then i else i - 1;
            && (i == k ==> m == n) && (i != k ==> m != n && m == list[j])
            && NextOf(With(list, k, n), i) == (if m == n then (if k < |list| then list[k] else NULL)
                                               else if k > 0 && m == list[k - 1] then n else NextOf(list, j))
            && PrevOf(With(list, k, n), i) == (if m == n then PrevOf(list, k)
                                               else if k < |list| && m == list[k] then n else PrevOf(list, j))
  {
    if i != k {
      var j := if i < k then i else i - 1;
      if k > 0 && list[j] == list[k - 1] { DistinctAt(list, j, k - 1); }
      if k < |list| && list[j] == list[k] { DistinctAt(list, j, k); }
    }
  }

  lemma InsertedBySteps(size: nat, p: Pool, n: nat, k: nat)
    requires Ready(size, p) && n in p.loose && k <= |p.live|
    ensures n < |p.links| && (k > 0 ==> p.live[k - 1] < |p.links|) && (k < |p.live| ==> p.live[k] < |p.links|)
    ensures var prev, next := PrevOf(p.live, k), if k < |p.live| then p.live[k] else NULL;
            Inserted(size, p, n, k).links == SetPrev(SetNext(p.links[n := Link(prev, next)], prev, n), next, n)
  {
    InUse(size, p);
  }

  lemma InsertedParts(size: nat, p: Pool, n: nat, k: nat)
    requires Ready(size, p) && n in p.loose && k <= |p.live|
    ensures var q := Inserted(size, p, n, k);
            && q.live == With(p.live, k, n) && q.loose == p.loose - {n}
            && q.spare == p.spare && q.freeHead == p.freeHead
  {}

  lemma LiveLinks(size: nat, p: Pool)
    requires Ready(size, p)
    ensures Distinct(p.live)
    ensures forall i :: 0 <= i < |p.live| ==>
              p.live[i] < |p.links| && p.links[p.live[i]] == Link(PrevOf(p.live, i), NextOf(p.live, i))
  {}

  lemma RemovedReady(size: nat, p: Pool, k: nat)
    requires Ready(size, p) && k < |p.live|
    ensures Ready(size, Removed(size, p, k))
  {
    OwnedRemoved(size, p.live, p.loose, p.spare, k);
    RemovedParts(size, p, k);
    RemovedLive(size, p, k);
    RemovedSpare(size, p, k);
    hide Owned, Removed, Forward, Backward;
  }

  lemma RemovedParts(size: nat, p: Pool, k: nat)
    requires Ready(size, p) && k < |p.live|
    ensures var q := Removed(size, p, k);
            && q.live == Without(p.live, k) && q.loose == p.loose + {p.live[k]}
            && q.spare == p.spare && q.freeHead == p.freeHead
  {}

  lemma RemovedLive(size: nat, p: Pool, k: nat)
    requires Ready(size, p) && k < |p.live|
    ensures var q := Removed(size, p, k);
            |q.links| == size + 1 && Forward(q.links, q.live) && Backward(q.links, q.live)
  {
    RemovedParts(size, p, k);
    RemovedAt(size, p, k, 0);
    hide Owned, Removed, Ready, Without;
    var q := Removed(size, p, k);
    forall i | 0 <= i < |q.live|
      ensures q.live[i] <= size
      ensures q.links[q.live[i]].next == NextOf(q.live, i) && q.links[q.live[i]].prev == PrevOf(q.live, i)
    {
      RemovedLinks(size, p, k, i);
    }
  }

  lemma RemovedSpare(size: nat, p: Pool, k: nat)
    requires Ready(size, p) && k < |p.live|
    ensures Forward(Removed(size, p, k).links, p.spare)
  {
    InUse(size, p);
    RemovedAt(size, p, k, 0);
    hide Owned, Removed, Backward;
    var q := Removed(size, p, k);
    forall i | 0 <= i < |p.spare| ensures q.links[p.spare[i]].next == p.links[p.spare[i]].next {
      RemovedAt(size, p, k, p.spare[i]);
    }
    ForwardFrame(p.links, q.links, p.spare);
  }

  lemma RemovedLinks(size: nat, p: Pool, k: nat, i: nat)
    requires Ready(size, p) && k < |p.live| && i + 1 < |p.live|
    ensures var q := Removed(size, p, k);
            && |q.links| == size + 1 && |q.live| == |p.live| - 1 && q.live[i] <= size
            && q.links[q.live[i]].next == NextOf(q.live, i) && q.links[q.live[i]].prev == PrevOf(q.live, i)
  {
    InUse(size, p);
    RemovedParts(size, p, k);
    LiveLinks(size, p);
    hide Owned, Removed, Without, Forward, Backward, Distinct, Ready, NextOf, PrevOf;
    WithoutNeighbours(p.live, k, i);
    RemovedAt(size, p, k, Without(p.live, k)[i]);
  }

  lemma WithoutNeighbours(list: seq<nat>, k: nat, i: nat)
    requires Distinct(list) && k < |list| && i + 1 < |list|
    ensures var m := Without(list, k)[i];
            var j := if i < k then i else i + 1;
            && m == list[j]
            && NextOf(Without(list, k), i) == (if k > 0 && m == list[k - 1] then NextOf(list, k) else NextOf(list, j))
            && PrevOf(Without(list, k), i) ==
               (if k + 1 < |list| && m == list[k + 1] then PrevOf(list, k) else PrevOf(list, j))
  {
    var j := if i < k then i else i + 1;
    if k > 0 && list[j] == list[k - 1] { DistinctAt(list, j, k - 1); }
    if k + 1 < |list| && list[j] == list[k + 1] { DistinctAt(list, j, k + 1); }
  }

  /** A first node needs no linking: new has cleared its links already. */
  lemma AdoptedReady(size: nat, p: Pool, n: nat)
    requires Ready(size, p) && p.live == [] && n in p.loose && p.links[n] == Link(NULL, NULL)
    ensures Ready(size, p.(live := [n], loose := p.loose - {n}))
  {
    assert p.loose == (p.loose - {n}) + {n};
  }

  /** The assertion in new fails exactly when all `size` nodes are out. */
  lemma ExhaustedIff(size: nat, p: Pool)
    requires Ready(size, p)
    ensures |p.spare| == 1 <==> |p.live| + |p.loose| == size
    ensures p.links[p.freeHead].next == NULL <==> |p.spare| == 1
  {
    assert p.links[p.spare[0]].next == NextOf(p.spare, 0);
  }

  // ---------- any run of the operations ----------

  datatype Op = New | Adopt(n: nat) | Insert(n: nat, k: nat) | Remove(k: nat) | Free(n: nat)

  /** What the list's user owes it: take from a pool that is not used up, link only nodes it holds,
      unlink only listed ones, free only unlinked ones. */
  ghost predicate Legal(size: nat, p: Pool, op: Op)
    requires Consistent(size, p)
  {
    match op
    case New => |p.live| + |p.loose| < size
    case Adopt(n) => Ready(size, p) && p.live == [] && n in p.loose && n < |p.links| && p.links[n] == Link(NULL, NULL)
    case Insert(n, k) => Ready(size, p) && n in p.loose && k <= |p.live|
    case Remove(k) => Ready(size, p) && k < |p.live|
    case Free(n) => Ready(size, p) && n in p.loose && n < |p.links|
  }

  lemma StartedHasSpare(size: nat, p: Pool)
    requires Consistent(size, p)
    ensures var q := Started(size, p);
            Ready(size, q) && q.live == p.live && q.loose == p.loose && q.spare[0] < |q.links|
    ensures Ready(size, p) ==> Started(size, p) == p
  {
    StartedReady(size, p);
    InUse(size, Started(size, p));
  }

  ghost function Apply(size: nat, p: Pool, op: Op): (q: Pool)
    requires Consistent(size, p) && Legal(size, p, op)
  {
    match op
    case New => StartedHasSpare(size, p); Taken(Started(size, p))
    case Adopt(n) => p.(live := [n], loose := p.loose - {n})
    case Insert(n, k) => Inserted(size, p, n, k)
    case Remove(k) => Removed(size, p, k)
    case Free(n) => Freed(p, n)
  }

  lemma ApplyReady(size: nat, p: Pool, op: Op)
    requires Consistent(size, p) && Legal(size, p, op)
    ensures Ready(size, Apply(size, p, op))
  {
    match op
    case New =>
      StartedHasSpare(size, p);
      ExhaustedIff(size, Started(size, p));
      TakenReady(size, Started(size, p));
    case Adopt(n) => AdoptedReady(size, p, n);
    case Insert(n, k) => InsertedReady(size, p, n, k);
    case Remove(k) => RemovedReady(size, p, k);
    case Free(n) => FreedReady(size, p, n);
  }

  ghost predicate LegalRun(size: nat, p: Pool, ops: seq<Op>)
    requires Consistent(size, p)
    decreases |ops|
  {
    ops != [] ==>
      && Legal(size, p, ops[0])
      && (ApplyReady(size, p, ops[0]); LegalRun(size, Apply(size, p, ops[0]), ops[1..]))
  }

  ghost function RunPool(size: nat, p: Pool, ops: seq<Op>): Pool
    requires Consistent(size, p) && LegalRun(size, p, ops)
    decreases |ops|
  {
    if ops == [] then p else ApplyReady(size, p, ops[0]); RunPool(size, Apply(size, p, ops[0]), ops[1..])
  }

  /** After any run from the untouched pool the two lists are whole, and once anything happened the
      free head is never null again: the initialising branch ran once. */
  lemma {:induction false} RunReady(size: nat, p: Pool, ops: seq<Op>)
    requires Consistent(size, p) && LegalRun(size, p, ops)
    ensures Consistent(size, RunPool(size, p, ops))
    ensures ops != [] || Ready(size, p) ==> Ready(size, RunPool(size, p, ops)) && RunPool(size, p, ops).freeHead != NULL
    decreases |ops|
  {
    if ops != [] {
      ApplyReady(size, p, ops[0]);
      RunReady(size, Apply(size, p, ops[0]), ops[1..]);
    }
  }

  /** What new hands out is in nobody's hands, and is not the end mark. */
  lemma NewIsUnowned(size: nat, p: Pool)
    requires Consistent(size, p) && Legal(size, p, New)
    ensures var q := Apply(size, p, New);
            exists n: nat :: n < size && n !in p.live && n !in p.loose && q.loose == p.loose + {n} && q.live == p.live
  {
    StartedHasSpare(size, p);
    var s := Started(size, p);
    ExhaustedIff(size, s);
    InUse(size, s);
    assert s.spare[0] != s.spare[|s.spare| - 1];
    var n := s.spare[0];
    assert n < size && n !in p.live && n !in p.loose;
    assert Apply(size, p, New).loose == p.loose + {n};
  }

  class LinkList {
    const size: nat
    const pool: array<Link>
    var freeHead: int

    ghost var live: seq<nat>
    ghost var loose: set<nat>
    ghost var spare: seq<nat>

    ghost function Contents(): Pool
      reads this, pool
    {
      Pool(pool[..], freeHead, live, loose, spare)
    }

    ghost predicate Valid()
      reads this, pool
    {
      Consistent(size, Contents())
    }

    constructor (size: nat)
      ensures Valid() && this.size == size && fresh(pool)
      ensures freeHead == NULL && live == [] && loose == {}
    {
      this.size := size;
      pool := new Link[size + 1](_ => Link(NULL, NULL));
      freeHead, live, loose, spare := NULL, [], {}, [];
    }

    /** The initialising branch: taken once, since a pool in service never has a null free head again. */
    method Start()
      requires Valid()
      modifies this`freeHead, this`spare, pool
      ensures Contents() == Started(size, old(Contents())) && Ready(size, Contents()) && freeHead != NULL
    {
      StartedReady(size, Contents());
      if freeHead == NULL {
        ghost var was := Contents();
        var i := 1;
        while i <= size
          invariant 1 <= i <= size + 1
          invariant pool.Length == size + 1
          invariant forall n: nat :: n <= size ==>
                      pool[n] == if n < i - 1 then was.links[n].(next := n + 1) else was.links[n]
        {
          pool[i - 1] := pool[i - 1].(next := i);
          i := i + 1;
        }
        freeHead := 0;
        spare := Started(size, was).spare;
        assert pool[..] == Started(size, was).links;
      }
    }

    /** new; NULL stands for the failing assertion that the pool is not used up. */
    method New() returns (ret: int)
      requires Valid()
      modifies this`freeHead, this`loose, this`spare, pool
      ensures Ready(size, Contents()) && freeHead != NULL
      ensures ret == NULL <==> |live| + |old(loose)| == size
      ensures ret == NULL ==> loose == old(loose)
      ensures ret != NULL ==> 0 <= ret < size < pool.Length
      ensures ret != NULL ==> ret !in live && ret !in old(loose) && loose == old(loose) + {ret}
      ensures ret != NULL ==> Contents() == Taken(Started(size, old(Contents()))) && pool[ret] == Link(NULL, NULL)
    {
      Start();
      ghost var was := Contents();
      ExhaustedIff(size, was);
      InUse(size, was);
      if pool[freeHead].next == NULL { return NULL; }
      TakenReady(size, was);
      assert was.spare[0] != was.spare[|spare| - 1];
      hide Ready, Consistent, Started;
      ret := freeHead;
      freeHead := pool[freeHead].next;
      pool[ret] := Link(NULL, NULL);
      loose, spare := loose + {ret}, spare[1..];
      assert pool[..] == Taken(was).links;
    }

    /** The guarded link writes that insert and remove share. */
    method PointNext(n: int, to: int)
      requires n != NULL ==> 0 <= n < pool.Length
      modifies pool
      ensures pool[..] == SetNext(old(pool[..]), n, to)
    {
      if n != NULL { pool[n] := pool[n].(next := to); }
    }

    method PointPrev(n: int, to: int)
      requires n != NULL ==> 0 <= n < pool.Length
      modifies pool
      ensures pool[..] == SetPrev(old(pool[..]), n, to)
    {
      if n != NULL { pool[n] := pool[n].(prev := to); }
    }

    /** insert, between two neighbours on the list */
    method Insert(prev: int, next: int, obj: nat, ghost k: nat)
      requires Ready(size, Contents()) && obj in loose && k <= |live|
      requires prev == PrevOf(live, k) && next == if k < |live| then live[k] else NULL
      requires prev != NULL || next != NULL
      modifies this`live, this`loose, pool
      ensures Ready(size, old(Contents())) && Contents() == Inserted(size, old(Contents()), obj, k)
      ensures Ready(size, Contents()) && live == With(old(live), k, obj) && loose == old(loose) - {obj}
    {
      ghost var was := Contents();
      InUse(size, was);
      InsertedReady(size, was, obj, k);
      InsertedParts(size, was, obj, k);
      hide Ready, Inserted, With, Distinct, Owned, Forward, Backward;
      pool[obj] := pool[obj].(prev := prev);
      pool[obj] := pool[obj].(next := next);
      assert pool[..] == was.links[obj := Link(prev, next)];
      PointNext(prev, obj);
      PointPrev(next, obj);
      InsertedBySteps(size, was, obj, k);
      live, loose := With(live, k, obj), loose - {obj};
    }

    /** remove */
    method Remove(node: nat, ghost k: nat)
      requires Ready(size, Contents()) && k < |live| && live[k] == node
      modifies this`live, this`loose, pool
      ensures Ready(size, old(Contents())) && Contents() == Removed(size, old(Contents()), k)
      ensures Ready(size, Contents()) && live == Without(old(live), k) && loose == old(loose) + {node}
    {
      ghost var was := Contents();
      InUse(size, was);
      LiveLinks(size, was);
      RemovedReady(size, was, k);
      RemovedParts(size, was, k);
      hide Ready, Without, Distinct;
      var prev, next := pool[node].prev, pool[node].next;
      PointNext(prev, next);
      PointPrev(next, prev);
      assert pool[..] == Removed(size, was, k).links;
      live, loose := Without(live, k), loose + {node};
    }

    /** free */
    method Free(node: nat)
      requires Ready(size, Contents()) && node in loose
      modifies this`freeHead, this`loose, this`spare, pool
      ensures Ready(size, Contents()) && Contents() == Freed(old(Contents()), node)
    {
      InUse(size, Contents());
      FreedReady(size, Contents(), node);
      ghost var was := Contents();
      hide Ready;
      pool[node] := pool[node].(next := freeHead);
      freeHead := node;
      loose, spare := loose - {node}, [node] + spare;
      assert pool[..] == Freed(was, node).links;
    }
  }
}
