/** Lists threaded through a fixed pool of nodes, seen as sequences of node numbers. */
module Lists {
  const NULL: int := -1

  ghost predicate Distinct<T>(s: seq<T>) { forall i, j :: 0 <= i < j < |s| ==> s[i] != s[j] }

  function Without<T>(s: seq<T>, k: nat): (r: seq<T>)
    requires k < |s|
    ensures |r| == |s| - 1 && forall i :: 0 <= i < |r| ==> r[i] == s[if i < k then i else i + 1]
  {
    s[..k] + s[k + 1..]
  }

  function NextOf(list: seq<nat>, i: nat): int { if i + 1 < |list| then list[i + 1] else NULL }
  function PrevOf(list: seq<nat>, i: nat): int
    requires i <= |list|
  {
    if i > 0 then list[i - 1] else NULL
  }

  /** No node twice, and every one of the `size` nodes on exactly one of the two lists. */
  ghost predicate Partition(size: nat, active: seq<nat>, spare: seq<nat>) {
    && Distinct(active) && Distinct(spare) && |active| + |spare| == size
    && (forall n: nat :: n in active ==> n < size)
    && (forall n: nat :: n in spare ==> n < size)
    && (forall n: nat :: n < size ==> (n in active <==> n !in spare))
  }

  lemma PartitionTake(size: nat, active: seq<nat>, spare: seq<nat>)
    requires Partition(size, active, spare) && spare != []
    ensures Partition(size, [spare[0]] + active, spare[1..])
  {
    var n, a, s := spare[0], [spare[0]] + active, spare[1..];
    assert spare == [n] + s && n in spare;
    assert forall m :: m in s ==> m in spare;
    assert forall i :: 0 <= i < |active| ==> active[i] in active;
    assert n !in s by { assert forall i :: 0 <= i < |s| ==> s[i] == spare[i + 1]; }
    assert Distinct(s) by { assert forall i :: 0 <= i < |s| ==> s[i] == spare[i + 1]; }
  }

  lemma PartitionRelease(size: nat, active: seq<nat>, spare: seq<nat>, k: nat)
    requires Partition(size, active, spare) && k < |active|
    ensures Partition(size, Without(active, k), [active[k]] + spare)
    ensures forall n :: n in active <==> n == active[k] || n in Without(active, k)
  {
    var n, a, s := active[k], Without(active, k), [active[k]] + spare;
    assert active == active[..k] + [n] + active[k + 1..] && a == active[..k] + active[k + 1..];
    assert n in active;
    assert n !in a;
    assert forall m :: m in a ==> m in active;
    assert forall i :: 0 <= i < |spare| ==> spare[i] in spare;
  }

  lemma PartitionAll(size: nat, active: seq<nat>, spare: seq<nat>)
    requires Partition(size, active, spare)
    ensures Partition(size, [], active + spare)
  {
    var all := active + spare;
    assert forall n :: n in all <==> n in active || n in spare;
    forall i, j | 0 <= i < j < |all| ensures all[i] != all[j] {
      if i < |active| <= j { assert all[i] in active && all[j] in spare; }
    }
  }
}
