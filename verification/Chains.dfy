/** The allocation table as a heap of linked cluster chains. */
module Chains {
  import opened OnDisk

  ghost predicate Distinct(s: seq<Index>) {
    forall i, j | 0 <= i < j < |s| :: s[i] != s[j]
  }

  ghost predicate Ascending(s: seq<Index>) {
    forall i, j | 0 <= i < j < |s| :: s[i] < s[j]
  }

  /** Following the table from chain[0] visits exactly these clusters and then meets the end-of-file mark. */
  ghost predicate IsChain(fat: Fat, chain: seq<Index>) {
    && |chain| > 0
    && (forall j {:trigger fat[chain[j]]} | 0 <= j < |chain| - 1 :: fat[chain[j]] == chain[j + 1])
    && fat[chain[|chain| - 1]] == END_OF_FILE
  }

  lemma ChainSuffixesAgree(fat: Fat, a: seq<Index>, i: nat, b: seq<Index>, j: nat, k: nat)
    requires IsChain(fat, a) && IsChain(fat, b)
    requires i + k < |a| && j + k < |b| && a[i] == b[j]
    ensures a[i + k] == b[j + k]
  {
    if k > 0 {
      ChainSuffixesAgree(fat, a, i, b, j, k - 1);
      assert fat[a[i + k - 1]] == a[i + k] && fat[b[j + k - 1]] == b[j + k];
    }
  }

  lemma InnerLinkIsNotTheEnd(fat: Fat, chain: seq<Index>, j: nat)
    requires IsChain(fat, chain) && j < |chain| - 1
    ensures fat[chain[j]] == chain[j + 1] != END_OF_FILE
  {
    assert chain[j + 1] < CLUSTER_MAP_SIZE;
  }

  /** A chain that ends cannot meet itself. */
  lemma ChainAcyclic(fat: Fat, chain: seq<Index>)
    requires IsChain(fat, chain)
    ensures Distinct(chain)
  {
    forall i, j | 0 <= i < j < |chain|
      ensures chain[i] != chain[j]
    {
      if chain[i] == chain[j] {
        var k := |chain| - 1 - j;
        ChainSuffixesAgree(fat, chain, i, chain, j, k);
        InnerLinkIsNotTheEnd(fat, chain, i + k);
      }
    }
  }

  /** The first cluster determines the whole chain. */
  lemma ChainUnique(fat: Fat, a: seq<Index>, b: seq<Index>)
    requires IsChain(fat, a) && IsChain(fat, b) && a[0] == b[0]
    ensures a == b
  {
    ChainNotLonger(fat, a, b);
    ChainNotLonger(fat, b, a);
    forall k | 0 <= k < |a|
      ensures a[k] == b[k]
    {
      ChainSuffixesAgree(fat, a, 0, b, 0, k);
    }
  }

  lemma ChainNotLonger(fat: Fat, a: seq<Index>, b: seq<Index>)
    requires IsChain(fat, a) && IsChain(fat, b) && a[0] == b[0]
    ensures |a| >= |b|
  {
    if |a| < |b| {
      ChainSuffixesAgree(fat, a, 0, b, 0, |a| - 1);
      InnerLinkIsNotTheEnd(fat, b, |a| - 1);
    }
  }

  /** Two chains of one table that share a cluster share their ends from there on, so the chains of different heads
      that are not on each other's path never meet. */
  lemma ChainsMeetOnlyInTails(fat: Fat, a: seq<Index>, i: nat, b: seq<Index>, j: nat)
    requires IsChain(fat, a) && IsChain(fat, b) && i < |a| && j < |b| && a[i] == b[j]
    ensures a[i..] == b[j..]
  {
    assert IsChain(fat, a[i..]) && IsChain(fat, b[j..]);
    ChainUnique(fat, a[i..], b[j..]);
  }

  ghost predicate HeadsChain(fat: Fat, head: nat) {
    exists chain :: IsChain(fat, chain) && chain[0] == head
  }

  ghost function ChainFrom(fat: Fat, head: nat): (chain: seq<Index>)
    requires HeadsChain(fat, head)
    ensures IsChain(fat, chain) && chain[0] == head
  {
    var chain :| IsChain(fat, chain) && chain[0] == head;
    chain
  }

  /** The free clusters below n, lowest first. */
  function FreeBelow(fat: Fat, n: nat): (free: seq<Index>)
    requires n <= |fat|
    decreases |fat|, n
  {
    if n == 0 then []
    else if fat[n - 1] == EMPTY_ENTRY then FreeBelow(fat, n - 1) + [n - 1]
    else FreeBelow(fat, n - 1)
  }

  function FreeClusters(fat: Fat): seq<Index> {
    FreeBelow(fat, |fat|)
  }

  /** The list holds exactly the free clusters, in ascending order. */
  lemma {:induction false} FreeBelowLists(fat: Fat, n: nat)
    requires n <= |fat|
    ensures Ascending(FreeBelow(fat, n))
    ensures forall c :: c in FreeBelow(fat, n) <==> 0 <= c < n && fat[c] == EMPTY_ENTRY
    decreases n
  {
    if n > 0 {
      FreeBelowLists(fat, n - 1);
      var below := FreeBelow(fat, n - 1);
      assert forall i | 0 <= i < |below| :: below[i] in below;
    }
  }

  lemma {:induction false} FreeBelowPrefix(fat: Fat, i: nat, n: nat)
    requires i <= n <= |fat|
    ensures FreeBelow(fat, i) <= FreeBelow(fat, n)
    decreases n
  {
    if i < n {
      FreeBelowPrefix(fat, i, n - 1);
    }
  }

  /** The table after the scan has linked `chain` but not yet ended it: its last entry is still what it was. */
  ghost function LinkOpen(fat: Fat, chain: seq<Index>): Fat
    decreases |chain|
  {
    if |chain| <= 1 then fat
    else
      var n := |chain| - 1;
      LinkOpen(fat, chain[..n])[chain[n - 1] := chain[n]]
  }

  lemma LinkOpenOne(fat: Fat, c: Index)
    ensures LinkOpen(fat, [c]) == fat
  {
  }

  lemma LinkOpenAt(fat: Fat, chain: seq<Index>)
    requires Distinct(chain)
    ensures forall c: Index | c !in chain || c == chain[|chain| - 1] ::
              LinkOpen(fat, chain)[c] == fat[c]
    ensures forall j | 0 <= j < |chain| - 1 :: LinkOpen(fat, chain)[chain[j]] == chain[j + 1]
    decreases |chain|
  {
    if |chain| > 1 {
      var n := |chain| - 1;
      LinkOpenAt(fat, chain[..n]);
      forall c: Index | c !in chain || c == chain[n]
        ensures LinkOpen(fat, chain)[c] == fat[c]
      {
        assert c != chain[n - 1];
        assert c !in chain[..n];
      }
    }
  }

  /** The table with every cluster of `chain` marked empty. */
  ghost function Release(fat: Fat, chain: seq<Index>): Fat {
    seq(CLUSTER_MAP_SIZE, c requires 0 <= c < CLUSTER_MAP_SIZE => if c in chain then EMPTY_ENTRY else fat[c])
  }

  /** An open chain of free clusters with its first j links undone. */
  ghost function Undone(fat: Fat, chain: seq<Index>, j: nat): Fat
    requires j <= |chain|
  {
    Release(LinkOpen(fat, chain), chain[..j])
  }

  /** Undoing one link of an ascending open chain: the entry is non-empty up to the last one, and clearing it is one
      step of the undoing. */
  lemma UndoneStep(fat: Fat, chain: seq<Index>, j: nat)
    requires Ascending(chain) && j < |chain| && forall c | c in chain :: fat[c] == EMPTY_ENTRY
    ensures Undone(fat, chain, j)[chain[j]] == if j < |chain| - 1 then chain[j + 1] else EMPTY_ENTRY
    ensures Undone(fat, chain, j)[chain[j]] == EMPTY_ENTRY <==> j == |chain| - 1
    ensures Undone(fat, chain, j)[chain[j] := EMPTY_ENTRY] == Undone(fat, chain, j + 1)
  {
    LinkOpenAt(fat, chain);
    assert chain[..j + 1] == chain[..j] + [chain[j]];
    assert chain[j] !in chain[..j];
  }

  /** With every link but the open end undone, the table is what it was before the scan. */
  lemma UndoneAll(fat: Fat, chain: seq<Index>)
    requires Ascending(chain) && |chain| > 0 && forall c | c in chain :: fat[c] == EMPTY_ENTRY
    ensures Undone(fat, chain, |chain| - 1) == fat
  {
    LinkOpenAt(fat, chain);
    var n := |chain| - 1;
    assert chain == chain[..n] + [chain[n]];
  }

  /** One step of the scan: what it reads, and the table after it. */
  lemma ScanStep(fat: Fat, i: Index)
    requires FreeBelow(fat, i) != []
    ensures var done := FreeBelow(fat, i);
            && LinkOpen(fat, done)[i] == fat[i]
            && LinkOpen(fat, FreeBelow(fat, i + 1))
               == if fat[i] == EMPTY_ENTRY then LinkOpen(fat, done)[done[|done| - 1] := i] else LinkOpen(fat, done)
  {
    var done := FreeBelow(fat, i);
    FreeBelowLists(fat, i);
    LinkOpenAt(fat, done);
    assert i !in done;
    assert (done + [i])[..|done|] == done;
  }

  /** The table with `chain` linked and ended. */
  ghost function Link(fat: Fat, chain: seq<Index>): Fat
    requires |chain| > 0
  {
    LinkOpen(fat, chain)[chain[|chain| - 1] := END_OF_FILE]
  }

  lemma LinkMakesChain(fat: Fat, chain: seq<Index>)
    requires |chain| > 0 && Distinct(chain)
    ensures IsChain(Link(fat, chain), chain)
    ensures forall c: Index | c !in chain :: Link(fat, chain)[c] == fat[c]
  {
    LinkOpenAt(fat, chain);
  }

  /** One step of freeing a chain from its head: the entry still holds its link, and clearing it is one step of the
      release. */
  lemma ReleaseStep(fat: Fat, chain: seq<Index>, j: nat)
    requires IsChain(fat, chain) && j < |chain|
    ensures Release(fat, chain[..j])[chain[j]] == if j < |chain| - 1 then chain[j + 1] else END_OF_FILE
    ensures Release(fat, chain[..j])[chain[j]] == END_OF_FILE <==> j == |chain| - 1
    ensures Release(fat, chain[..j])[chain[j] := EMPTY_ENTRY] == Release(fat, chain[..j + 1])
  {
    ChainAcyclic(fat, chain);
    assert chain[..j + 1] == chain[..j] + [chain[j]];
    assert chain[j] !in chain[..j];
  }

  /** Linking free clusters and releasing them again is the identity on the table. */
  lemma ReleaseUndoesLink(fat: Fat, chain: seq<Index>)
    requires |chain| > 0 && Distinct(chain)
    requires forall c | c in chain :: fat[c] == EMPTY_ENTRY
    ensures Release(Link(fat, chain), chain) == fat
  {
    LinkMakesChain(fat, chain);
  }

  /** Chains that avoid the released clusters survive. */
  lemma ChainFrame(fat: Fat, fat': Fat, chain: seq<Index>)
    requires IsChain(fat, chain) && forall c | c in chain :: fat'[c] == fat[c]
    ensures IsChain(fat', chain)
  {
  }

  function ClustersNeeded(size: nat): (need: nat)
    ensures size > 0 ==> need > 0
  {
    if size % CLUSTER_SIZE != 0 then size / CLUSTER_SIZE + 1 else size / CLUSTER_SIZE
  }

  /** How many clusters the scan takes from the free list. The scan always looks at one more entry after the first free
      one before it compares, so a one-cluster file takes a second cluster when that very entry is free. */
  function ClustersTaken(free: seq<Index>, need: nat): nat
    requires |free| > 0
  {
    if need > 1 then need else if |free| > 1 && free[1] as int == free[0] as int + 1 then 2 else 1
  }

  /** The clusters that a file in need of so many is given, or none. */
  function Allocation(fat: Fat, need: nat): (chain: seq<Index>)
    requires need > 0
    ensures |chain| > 0 ==> |chain| >= need
  {
    var free := FreeClusters(fat);
    if |free| < need then [] else free[..ClustersTaken(free, need)]
  }

  lemma {:induction false} NoFreeBelow(fat: Fat, i: nat)
    requires i <= |fat| && forall d | 0 <= d < i :: fat[d] != EMPTY_ENTRY
    ensures FreeBelow(fat, i) == []
  {
    if i > 0 {
      NoFreeBelow(fat, i - 1);
    }
  }

  lemma LowestFree(fat: Fat, start: Index)
    requires fat[start] == EMPTY_ENTRY && forall d | 0 <= d < start :: fat[d] != EMPTY_ENTRY
    ensures FreeBelow(fat, start + 1) == [start] <= FreeClusters(fat)
  {
    NoFreeBelow(fat, start);
    FreeBelowPrefix(fat, start + 1, |fat|);
  }

  /** How many clusters the scan has passed when it stops at its very first comparison. */
  lemma FirstComparison(fat: Fat, start: Index)
    requires start + 1 < CLUSTER_MAP_SIZE
    requires fat[start] == EMPTY_ENTRY && forall d | 0 <= d < start :: fat[d] != EMPTY_ENTRY
    ensures FreeClusters(fat) != [] && |FreeBelow(fat, start + 2)| == ClustersTaken(FreeClusters(fat), 1)
  {
    var free := FreeClusters(fat);
    LowestFree(fat, start);
    FreeBelowPrefix(fat, start + 2, |fat|);
    FreeBelowLists(fat, |fat|);
    assert |free| > 1 ==> free[1] in free;
  }

  /** Where the second scan loop stops, the free clusters passed so far are the allocation. */
  lemma ScanResult(fat: Fat, need: nat, start: Index, i: nat)
    requires need > 0 && start < i <= |fat| && fat[start] == EMPTY_ENTRY
    requires forall d | 0 <= d < start :: fat[d] != EMPTY_ENTRY
    requires || (i == |fat| && |FreeBelow(fat, i)| < need)
             || (i == |fat| == start + 1 && need == 1)
             || (i == start + 2 && need == 1)
             || (|FreeBelow(fat, i)| == need && need > 1)
    ensures |FreeBelow(fat, i)| >= need ==> FreeBelow(fat, i) == Allocation(fat, need)
    ensures |FreeBelow(fat, i)| < need ==> Allocation(fat, need) == [] && i == |fat|
  {
    FreeBelowPrefix(fat, i, |fat|);
    LowestFree(fat, start);
    if i == start + 2 {
      FirstComparison(fat, start);
    }
  }

  /** The allocation takes the lowest free clusters in ascending order; it finds space exactly when enough clusters
      are free; and how many it takes. */
  lemma AllocationCharacterized(fat: Fat, size: nat)
    requires size > 0
    ensures var chain, free, need := Allocation(fat, ClustersNeeded(size)), FreeClusters(fat), ClustersNeeded(size);
            && (need - 1) * CLUSTER_SIZE < size <= need * CLUSTER_SIZE
            && (chain != [] <==> |free| >= need)
            && Ascending(chain)
            && (forall c | c in chain :: fat[c] == EMPTY_ENTRY)
            && (forall c, d: Index | c in chain && d < c && fat[d] == EMPTY_ENTRY :: d in chain)
            && (need >= 2 && chain != [] ==> |chain| == need)
            && (need == 1 && chain != [] ==>
                  |chain| == if chain[0] + 1 < CLUSTER_MAP_SIZE && fat[chain[0] + 1] == EMPTY_ENTRY then 2 else 1)
  {
    var chain, free, need := Allocation(fat, ClustersNeeded(size)), FreeClusters(fat), ClustersNeeded(size);
    FreeBelowLists(fat, |fat|);
    forall c, d: Index | c in chain && d < c && fat[d] == EMPTY_ENTRY
      ensures d in chain
    {
      assert d in free;
      var i :| 0 <= i < |free| && free[i] == d;
      var j :| 0 <= j < |chain| && chain[j] == c;
      assert chain[i] == d;
    }
    if need == 1 && chain != [] {
      var next := chain[0] + 1;
      if next < CLUSTER_MAP_SIZE && fat[next] == EMPTY_ENTRY {
        assert next in free;
        var i :| 0 <= i < |free| && free[i] == next;
        assert free[1] <= free[i];
      } else if |free| > 1 {
        assert free[1] in free;
      }
    }
  }

  /** An allocation is a chain of clusters that were free. */
  lemma AllocationLinks(fat: Fat, need: nat)
    requires need > 0 && Allocation(fat, need) != []
    ensures var chain := Allocation(fat, need);
            && Ascending(chain)
            && (forall c | c in chain :: fat[c] == EMPTY_ENTRY)
            && IsChain(Link(fat, chain), chain)
            && (forall c: Index | c !in chain :: Link(fat, chain)[c] == fat[c])
  {
    FreeBelowLists(fat, |fat|);
    LinkMakesChain(fat, Allocation(fat, need));
  }
}
