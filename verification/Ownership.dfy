/** The invariant that ties the allocation table to the directory tree: every used cluster is reserved, belongs to the
    chain of exactly one live entry, or has leaked in a crash. It is kept by each of the small steps that the driver's
    calls are made of. */
module Ownership {
  import opened OnDisk
  import opened Chains
  import opened Operations

  type Position = i: nat | i < SLOT_COUNT

  /** A directory slot: the directory's cluster and the position in its table. */
  datatype Slot = Slot(dir: Index, pos: Position)

  /** The tables of the directories. */
  type Tables = map<Index, Table>

  /** A witness for the invariant: the slot that enters each directory but the root, the depth of each directory, the
      chain of each live entry, the entry that owns each cluster, and the clusters lost to crashes. */
  datatype Layout = Layout(
    home: map<Index, Slot>, depth: map<Index, nat>,
    chains: map<Slot, seq<Index>>, owner: map<Index, Slot>, leaked: set<Index>)

  ghost function At(ts: Tables, s: Slot): Entry {
    if s.dir in ts then ts[s.dir][s.pos] else ZERO_ENTRY
  }

  predicate IsBlank(e: Entry) {
    e.name == NO_NAME && e.ext == NO_EXT && e.attribute == 0 && !e.Live()
  }

  type Homes = map<Index, Slot>
  type ChainMap = map<Slot, seq<Index>>
  type Owners = map<Index, Slot>

  /** The chains are exactly those of the live slots from 2 on; every other such slot is blank. */
  ghost predicate Entered(ts: Tables, chains: ChainMap) {
    && (forall s | s in chains :: s.dir in ts && s.pos >= 2 && At(ts, s).Live())
    && (forall s: Slot | s.dir in ts && s.pos >= 2 && s !in chains :: IsBlank(At(ts, s)))
  }

  /** Every live entry heads its chain in the table. */
  ghost predicate Chained(fat: Fat, ts: Tables, chains: ChainMap) {
    forall s | s in chains :: IsChain(fat, chains[s]) && chains[s][0] == At(ts, s).Cluster()
  }

  /** A file's chain is long enough for its size, and a directory's size is stored as 0. */
  ghost predicate Sized(ts: Tables, chains: ChainMap) {
    forall s | s in chains :: SizeFits(At(ts, s), chains[s])
  }

  ghost predicate SizeFits(e: Entry, chain: seq<Index>) {
    if e.IsDir() then e.filesize == 0 else e.filesize <= CLUSTER_SIZE * |chain|
  }

  /** Every cluster of a chain is owned by that chain's entry alone. */
  ghost predicate Owned(chains: ChainMap, owner: Owners) {
    && (forall s, c {:trigger c in chains[s]} | s in chains && c in chains[s] :: c in owner && owner[c] == s)
    && (forall c {:trigger owner[c]} | c in owner :: owner[c] in chains && c in chains[owner[c]])
  }

  /** The used clusters are the reserved ones, the owned ones and the leaked ones, without overlap. */
  ghost predicate Accounted(fat: Fat, owned: set<Index>, leaked: set<Index>) {
    && (forall c: Index :: fat[c] != EMPTY_ENTRY <==> c <= ROOT_CLUSTER || c in owned || c in leaked)
    && (forall c | c in owned :: c > ROOT_CLUSTER && c !in leaked)
    && (forall c | c in leaked :: c > ROOT_CLUSTER)
  }

  /** Directories other than the root are exactly the targets of directory entries, each entered once. */
  ghost predicate Homed(ts: Tables, home: Homes, chains: ChainMap) {
    && ts.Keys == home.Keys + {ROOT_CLUSTER} && ROOT_CLUSTER !in home
    && (forall d {:trigger Parent(home, d)} | d in home ::
          home[d] in chains && At(ts, home[d]).IsDir() && chains[home[d]] == [d])
    && (forall s | s in chains && At(ts, s).IsDir() ::
          |chains[s]| == 1 && chains[s][0] in home && home[chains[s][0]] == s)
  }

  /** The directories form a tree below the root. */
  ghost predicate Ranked(home: Homes, depth: map<Index, nat>) {
    && depth.Keys == home.Keys + {ROOT_CLUSTER}
    && depth[ROOT_CLUSTER] == 0
    && (forall d {:trigger Parent(home, d)} | d in home :: home[d].dir in depth && depth[d] == depth[home[d].dir] + 1)
  }

  /** The root is its own parent. */
  ghost function Parent(home: Homes, d: Index): Index {
    if d in home then home[d].dir else ROOT_CLUSTER
  }

  /** Slot 0 of an initialised directory names the directory itself and slot 1 its parent. */
  ghost predicate Initialised(t: Table, d: Index, parent: Index) {
    && t[0].Live() && t[0].IsDir() && t[0].Cluster() == d
    && t[1].Live() && t[1].IsDir() && t[1].Cluster() == parent
  }

  /** A directory that is not initialised does not read as a directory; only a crash inside mkdir leaves one. */
  ghost predicate Headed(ts: Tables, home: Homes) {
    forall d {:trigger Parent(home, d)} | d in ts ::
      Initialised(ts[d], d, Parent(home, d)) || (d != ROOT_CLUSTER && !ts[d][0].IsDir())
  }

  ghost predicate DistinctKeys(ts: Tables, chains: ChainMap) {
    forall s, r {:trigger At(ts, s).HasKey(At(ts, r).name, At(ts, r).ext)}
    | s in chains && r in chains && s.dir == r.dir && s != r :: !At(ts, s).HasKey(At(ts, r).name, At(ts, r).ext)
  }

  ghost predicate Inv(fat: Fat, ts: Tables, l: Layout) {
    && Entered(ts, l.chains)
    && Chained(fat, ts, l.chains)
    && Sized(ts, l.chains)
    && Owned(l.chains, l.owner)
    && Accounted(fat, l.owner.Keys, l.leaked)
    && Homed(ts, l.home, l.chains)
    && Ranked(l.home, l.depth)
    && Headed(ts, l.home)
    && DistinctKeys(ts, l.chains)
  }

  ghost function TablesOf(disk: Disk, dirs: set<Index>): Tables {
    map d | d in dirs :: TableOf(disk[d])
  }

  ghost predicate Wf(fat: Fat, disk: Disk, l: Layout) {
    Inv(fat, TablesOf(disk, l.depth.Keys), l)
  }

  // ---------- the steps that the driver's calls are made of ----------

  lemma ChainedFrame(fat: Fat, fat': Fat, ts: Tables, chains: ChainMap, owner: Owners)
    requires Chained(fat, ts, chains) && Owned(chains, owner)
    requires forall c | c in owner :: fat'[c] == fat[c]
    ensures Chained(fat', ts, chains)
  {
    forall s | s in chains
      ensures IsChain(fat', chains[s])
    {
      ChainFrame(fat, fat', chains[s]);
    }
  }

  ghost function Reserved(l: Layout, chain: seq<Index>): Layout {
    l.(leaked := l.leaked + set c | c in chain)
  }

  /** Linking free clusters: until an entry refers to them they count as leaked. */
  lemma Reserve(fat: Fat, ts: Tables, l: Layout, chain: seq<Index>)
    requires Inv(fat, ts, l)
    requires |chain| > 0 && Distinct(chain) && forall c | c in chain :: fat[c] == EMPTY_ENTRY
    ensures Inv(Link(fat, chain), ts, Reserved(l, chain))
    ensures forall c | c in chain :: c > ROOT_CLUSTER && c !in l.owner && c !in l.leaked
  {
    hide Entered, Sized, Homed, Ranked, Headed, DistinctKeys, Chained, Owned, Link;
    LinkMakesChain(fat, chain);
    LinkedNotEmpty(fat, chain);
    ChainedFrame(fat, Link(fat, chain), ts, l.chains, l.owner);
  }

  lemma LinkedNotEmpty(fat: Fat, chain: seq<Index>)
    requires |chain| > 0 && Distinct(chain) && 0 !in chain
    ensures forall c | c in chain :: Link(fat, chain)[c] != EMPTY_ENTRY
  {
    LinkMakesChain(fat, chain);
    forall c | c in chain
      ensures Link(fat, chain)[c] != EMPTY_ENTRY
    {
      var j :| 0 <= j < |chain| && chain[j] == c;
      assert j < |chain| - 1 ==> chain[j + 1] in chain;
    }
  }

  /** Emptying leaked clusters. */
  lemma Unleak(fat: Fat, ts: Tables, l: Layout, chain: seq<Index>)
    requires Inv(fat, ts, l) && forall c | c in chain :: c in l.leaked
    ensures Inv(Release(fat, chain), ts, l.(leaked := l.leaked - set c | c in chain))
  {
    hide Entered, Sized, Homed, Ranked, Headed, DistinctKeys, Chained, Owned;
    ChainedFrame(fat, Release(fat, chain), ts, l.chains, l.owner);
  }

  ghost function SetSlot(ts: Tables, s: Slot, e: Entry): Tables
    requires s.dir in ts
  {
    ts[s.dir := ts[s.dir][s.pos := e]]
  }

  lemma AtSetSlot(ts: Tables, s: Slot, e: Entry)
    requires s.dir in ts
    ensures forall r :: At(SetSlot(ts, s, e), r) == if r == s then e else At(ts, r)
  {
  }

  /** What an entry needs to be put into a free slot. */
  ghost predicate Attachable(ts: Tables, chains: ChainMap, s: Slot, e: Entry) {
    && s.dir in ts && s.pos >= 2 && s !in chains && e.Live()
    && forall r | r in chains && r.dir == s.dir :: !At(ts, r).HasKey(e.name, e.ext)
  }

  ghost function AttachOwner(owner: Owners, s: Slot, chain: seq<Index>): Owners {
    owner + map c | c in chain :: s
  }

  ghost function Attached(l: Layout, s: Slot, chain: seq<Index>): Layout {
    l.(chains := l.chains[s := chain], owner := AttachOwner(l.owner, s, chain),
       leaked := l.leaked - set c | c in chain)
  }

  lemma AttachSlot(fat: Fat, ts: Tables, chains: ChainMap, s: Slot, e: Entry, chain: seq<Index>)
    requires Entered(ts, chains) && Chained(fat, ts, chains) && DistinctKeys(ts, chains)
    requires Attachable(ts, chains, s, e) && IsChain(fat, chain) && e.Cluster() == chain[0]
    ensures Entered(SetSlot(ts, s, e), chains[s := chain])
    ensures Chained(fat, SetSlot(ts, s, e), chains[s := chain])
    ensures DistinctKeys(SetSlot(ts, s, e), chains[s := chain])
  {
    hide SetSlot, At, IsChain;
    AtSetSlot(ts, s, e);
    assert SetSlot(ts, s, e).Keys == ts.Keys by {
      SetSlotKeys(ts, s, e);
    }
  }

  lemma SetSlotKeys(ts: Tables, s: Slot, e: Entry)
    requires s.dir in ts
    ensures SetSlot(ts, s, e).Keys == ts.Keys
  {
  }

  lemma AttachOwned(l: Layout, s: Slot, chain: seq<Index>, fat: Fat)
    requires Owned(l.chains, l.owner) && Accounted(fat, l.owner.Keys, l.leaked)
    requires s !in l.chains && forall c | c in chain :: c in l.leaked
    ensures Owned(Attached(l, s, chain).chains, Attached(l, s, chain).owner)
    ensures Accounted(fat, Attached(l, s, chain).owner.Keys, Attached(l, s, chain).leaked)
  {
  }

  /** Headed looks at the first two slots only. */
  lemma HeadedFrame(ts: Tables, home: Homes, s: Slot, e: Entry)
    requires Headed(ts, home) && s.dir in ts && s.pos >= 2
    ensures Headed(SetSlot(ts, s, e), home)
  {
  }

  /** Homed, for use: every directory but the root is the target of its home. */
  lemma HomesEntered(ts: Tables, home: Homes, chains: ChainMap)
    requires Homed(ts, home, chains)
    ensures forall d | d in home :: home[d] in chains && At(ts, home[d]).IsDir() && chains[home[d]] == [d]
  {
    hide At;
    forall d | d in home
      ensures home[d] in chains && At(ts, home[d]).IsDir() && chains[home[d]] == [d]
    {
      assert Parent(home, d) == home[d].dir;
    }
  }

  lemma AttachFileHomed(ts: Tables, l: Layout, s: Slot, e: Entry, chain: seq<Index>)
    requires Homed(ts, l.home, l.chains) && s.dir in ts && s !in l.chains && !e.IsDir()
    ensures Homed(SetSlot(ts, s, e), l.home, l.chains[s := chain])
  {
    hide SetSlot, At;
    HomesEntered(ts, l.home, l.chains);
    SetSlotKeys(ts, s, e);
    AtSetSlot(ts, s, e);
  }

  lemma AttachSized(ts: Tables, chains: ChainMap, s: Slot, e: Entry, chain: seq<Index>)
    requires Sized(ts, chains) && s.dir in ts && SizeFits(e, chain)
    ensures Sized(SetSlot(ts, s, e), chains[s := chain])
  {
    hide SetSlot, At;
    AtSetSlot(ts, s, e);
  }

  /** Entering a file whose chain has been reserved. */
  lemma AttachFile(fat: Fat, ts: Tables, l: Layout, s: Slot, e: Entry, chain: seq<Index>)
    requires Inv(fat, ts, l) && Attachable(ts, l.chains, s, e) && !e.IsDir()
    requires IsChain(fat, chain) && e.Cluster() == chain[0] && e.filesize <= CLUSTER_SIZE * |chain|
    requires forall c | c in chain :: c in l.leaked
    ensures Inv(fat, SetSlot(ts, s, e), Attached(l, s, chain))
  {
    hide Entered, Chained, DistinctKeys, Headed, Ranked, Owned, Accounted, SetSlot, IsChain, Sized, Homed, At;
    AttachSlot(fat, ts, l.chains, s, e, chain);
    AttachOwned(l, s, chain, fat);
    HeadedFrame(ts, l.home, s, e);
    AttachFileHomed(ts, l, s, e, chain);
    AttachSized(ts, l.chains, s, e, chain);
  }

  /** A table whose slots from 2 on are blank. */
  ghost predicate NoEntries(t: Table) {
    forall i | 2 <= i < SLOT_COUNT :: IsBlank(t[i])
  }

  /** The layout with a new directory, empty so far, entered at s. */
  ghost function DirAttached(l: Layout, s: Slot, c: Index): Layout
    requires s.dir in l.depth
  {
    Attached(l, s, [c]).(home := l.home[c := s], depth := l.depth[c := l.depth[s.dir] + 1])
  }

  /** A fresh cluster becomes a known directory without entries. */
  lemma AddTable(fat: Fat, ts: Tables, chains: ChainMap, c: Index, t: Table)
    requires Entered(ts, chains) && Chained(fat, ts, chains) && DistinctKeys(ts, chains) && Sized(ts, chains)
    requires c !in ts && NoEntries(t)
    ensures Entered(ts[c := t], chains) && Chained(fat, ts[c := t], chains)
    ensures DistinctKeys(ts[c := t], chains) && Sized(ts[c := t], chains)
    ensures forall r | r in chains :: At(ts[c := t], r) == At(ts, r)
  {
    hide IsChain;
    assert forall r | r in chains :: At(ts[c := t], r) == At(ts, r);
  }

  /** Directories are ranked, and but for the root they are owned. */
  lemma DirectoriesKnown(fat: Fat, ts: Tables, l: Layout)
    requires Inv(fat, ts, l)
    ensures ts.Keys == l.depth.Keys == l.home.Keys + {ROOT_CLUSTER}
    ensures forall d | d in l.home :: d in l.owner && l.owner[d] == l.home[d]
    ensures forall r | r in l.chains :: r.dir in ts
  {
    hide Chained, DistinctKeys, Headed, Sized, Accounted, At, IsBlank;
    HomesEntered(ts, l.home, l.chains);
    forall d | d in l.home
      ensures d in l.owner && l.owner[d] == l.home[d]
    {
      assert d in l.chains[l.home[d]];
    }
  }

  /** Entries after a table has been added and a slot of another one set. */
  lemma AtAttached(ts: Tables, c: Index, t: Table, s: Slot, e: Entry)
    requires s.dir in ts && c !in ts
    ensures var ts' := SetSlot(ts[c := t], s, e);
            && ts'.Keys == ts.Keys + {c} && At(ts', s) == e
            && forall r: Slot | r.dir in ts && r != s :: At(ts', r) == At(ts, r)
  {
    hide SetSlot, At;
    SetSlotKeys(ts[c := t], s, e);
    AtSetSlot(ts[c := t], s, e);
    forall r: Slot | r.dir in ts
      ensures At(ts[c := t], r) == At(ts, r)
    {
      AtOther(ts, c, t, r);
    }
  }

  lemma AttachDirHomed(ts: Tables, l: Layout, s: Slot, e: Entry, c: Index, t: Table)
    requires Homed(ts, l.home, l.chains) && s.dir in ts && s !in l.chains && e.IsDir()
    requires c !in ts && c > ROOT_CLUSTER
    requires forall r | r in l.chains :: r.dir in ts
    ensures Homed(SetSlot(ts[c := t], s, e), l.home[c := s], l.chains[s := [c]])
  {
    hide SetSlot, At, Parent;
    HomesEntered(ts, l.home, l.chains);
    AtAttached(ts, c, t, s, e);
    assert c !in l.home;
  }

  lemma AtOther(ts: Tables, c: Index, t: Table, r: Slot)
    requires r.dir != c
    ensures At(ts[c := t], r) == At(ts, r)
  {
  }

  lemma AttachRanked(l: Layout, s: Slot, c: Index)
    requires Ranked(l.home, l.depth) && s.dir in l.depth && c !in l.depth
    ensures Ranked(l.home[c := s], l.depth[c := l.depth[s.dir] + 1])
  {
    forall d | d in l.home
      ensures l.home[d].dir in l.depth && l.depth[d] == l.depth[l.home[d].dir] + 1
    {
      assert Parent(l.home, d) == l.home[d].dir;
    }
  }

  lemma AttachHeaded(ts: Tables, home: Homes, s: Slot, e: Entry, c: Index, t: Table)
    requires Headed(ts, home) && c !in ts && c !in home && c > ROOT_CLUSTER && s.dir in ts && s.pos >= 2
    requires !t[0].IsDir() || Initialised(t, c, s.dir)
    ensures Headed(SetSlot(ts[c := t], s, e), home[c := s])
  {
    hide Initialised;
    var home' := home[c := s];
    forall d | d in ts[c := t]
      ensures Initialised(ts[c := t][d], d, Parent(home', d)) || (d != ROOT_CLUSTER && !ts[c := t][d][0].IsDir())
    {
      assert d != c ==> Parent(home', d) == Parent(home, d);
    }
    HeadedFrame(ts[c := t], home', s, e);
  }

  lemma LeakedIsNoDirectory(fat: Fat, ts: Tables, l: Layout, c: Index)
    requires Inv(fat, ts, l) && c in l.leaked
    ensures c > ROOT_CLUSTER && c !in ts && c !in l.home
  {
    hide Entered, Chained, DistinctKeys, Headed, Owned, Sized, Homed, Ranked;
    DirectoriesKnown(fat, ts, l);
  }

  /** Entering a directory: its cluster has been reserved, and its table, whatever it is, shows no entries. */
  lemma AttachDir(fat: Fat, ts: Tables, l: Layout, s: Slot, e: Entry, c: Index, t: Table)
    requires Inv(fat, ts, l) && Attachable(ts, l.chains, s, e) && e.IsDir() && e.filesize == 0
    requires IsChain(fat, [c]) && e.Cluster() == c && c in l.leaked
    requires NoEntries(t) && (!t[0].IsDir() || Initialised(t, c, s.dir))
    ensures c !in ts
    ensures s.dir in l.depth && Inv(fat, SetSlot(ts[c := t], s, e), DirAttached(l, s, c))
  {
    hide Entered, Chained, DistinctKeys, Headed, Owned, SetSlot, IsChain, Sized, At, NoEntries, Initialised,
         Homed, Ranked, Accounted, Parent;
    LeakedIsNoDirectory(fat, ts, l, c);
    DirectoriesKnown(fat, ts, l);
    AddTable(fat, ts, l.chains, c, t);
    assert Attachable(ts[c := t], l.chains, s, e);
    AttachSlot(fat, ts[c := t], l.chains, s, e, [c]);
    AttachOwned(l, s, [c], fat);
    AttachRanked(l, s, c);
    AttachSized(ts[c := t], l.chains, s, e, [c]);
    AttachHeaded(ts, l.home, s, e, c, t);
    AttachDirHomed(ts, l, s, e, c, t);
  }

  ghost function Detached(l: Layout, s: Slot): Layout
    requires s in l.chains
  {
    var clusters := set c | c in l.chains[s];
    l.(chains := l.chains - {s}, owner := l.owner - clusters, leaked := l.leaked + clusters)
  }

  /** Blanking a live slot. */
  lemma DetachSlot(fat: Fat, ts: Tables, chains: ChainMap, s: Slot)
    requires Entered(ts, chains) && Chained(fat, ts, chains) && DistinctKeys(ts, chains) && Sized(ts, chains)
    requires s in chains
    ensures s.dir in ts
    ensures Entered(SetSlot(ts, s, Blanked(At(ts, s))), chains - {s})
    ensures Chained(fat, SetSlot(ts, s, Blanked(At(ts, s))), chains - {s})
    ensures DistinctKeys(SetSlot(ts, s, Blanked(At(ts, s))), chains - {s})
    ensures Sized(SetSlot(ts, s, Blanked(At(ts, s))), chains - {s})
  {
    hide SetSlot, At, IsChain;
    AtSetSlot(ts, s, Blanked(At(ts, s)));
    SetSlotKeys(ts, s, Blanked(At(ts, s)));
  }

  lemma DetachOwned(l: Layout, s: Slot, fat: Fat)
    requires Owned(l.chains, l.owner) && Accounted(fat, l.owner.Keys, l.leaked) && s in l.chains
    ensures Owned(Detached(l, s).chains, Detached(l, s).owner)
    ensures Accounted(fat, Detached(l, s).owner.Keys, Detached(l, s).leaked)
  {
    forall c | c in l.chains[s]
      ensures c in l.owner
    {
    }
  }

  lemma DetachFileHomed(ts: Tables, l: Layout, s: Slot)
    requires Homed(ts, l.home, l.chains) && s in l.chains && s.dir in ts && !At(ts, s).IsDir()
    ensures Homed(SetSlot(ts, s, Blanked(At(ts, s))), l.home, l.chains - {s})
  {
    hide SetSlot, At;
    HomesEntered(ts, l.home, l.chains);
    SetSlotKeys(ts, s, Blanked(At(ts, s)));
    AtSetSlot(ts, s, Blanked(At(ts, s)));
  }

  /** Blanking a file's entry leaks its chain. */
  lemma DetachFile(fat: Fat, ts: Tables, l: Layout, s: Slot)
    requires Inv(fat, ts, l) && s in l.chains && !At(ts, s).IsDir()
    ensures s.dir in ts && Inv(fat, SetSlot(ts, s, Blanked(At(ts, s))), Detached(l, s))
  {
    hide Entered, Chained, DistinctKeys, Headed, Ranked, Owned, Accounted, SetSlot, IsChain, Sized, Homed, At;
    DirectoriesKnown(fat, ts, l);
    DetachSlot(fat, ts, l.chains, s);
    DetachOwned(l, s, fat);
    SlotsFromTwo(ts, l.chains);
    HeadedFrame(ts, l.home, s, Blanked(At(ts, s)));
    DetachFileHomed(ts, l, s);
  }

  lemma SlotsFromTwo(ts: Tables, chains: ChainMap)
    requires Entered(ts, chains)
    ensures forall r | r in chains :: r.pos >= 2
  {
  }

  ghost function DirDetached(l: Layout, s: Slot, c: Index): Layout
    requires s in l.chains
  {
    Detached(l, s).(home := l.home - {c}, depth := l.depth - {c})
  }

  /** Forgetting a directory that no entry refers to any more and that has no entries itself. */
  lemma DropTable(fat: Fat, ts: Tables, chains: ChainMap, c: Index)
    requires Entered(ts, chains) && Chained(fat, ts, chains) && DistinctKeys(ts, chains) && Sized(ts, chains)
    requires forall r | r in chains :: r.dir != c
    ensures Entered(ts - {c}, chains) && Chained(fat, ts - {c}, chains)
    ensures DistinctKeys(ts - {c}, chains) && Sized(ts - {c}, chains)
  {
    hide IsChain, At;
    AtDropped(ts, c);
  }

  lemma AtDropped(ts: Tables, c: Index)
    ensures forall r: Slot | r.dir != c :: At(ts - {c}, r) == At(ts, r)
  {
  }

  lemma DetachDirHomed(ts: Tables, l: Layout, s: Slot, c: Index)
    requires Homed(ts, l.home, l.chains) && s in l.chains && s.dir in ts && l.chains[s] == [c] && At(ts, s).IsDir()
    requires forall r | r in l.chains :: r.dir != c
    ensures Homed(SetSlot(ts, s, Blanked(At(ts, s))) - {c}, l.home - {c}, l.chains - {s})
  {
    hide SetSlot, At;
    HomesEntered(ts, l.home, l.chains);
    SetSlotKeys(ts, s, Blanked(At(ts, s)));
    AtSetSlot(ts, s, Blanked(At(ts, s)));
    AtDropped(SetSlot(ts, s, Blanked(At(ts, s))), c);
  }

  lemma DetachHeaded(ts: Tables, home: Homes, s: Slot, e: Entry, c: Index)
    requires Headed(ts, home) && s.dir in ts && s.pos >= 2
    ensures Headed(SetSlot(ts, s, e) - {c}, home - {c})
  {
    hide Initialised;
    HeadedFrame(ts, home, s, e);
    assert forall d | d != c :: Parent(home - {c}, d) == Parent(home, d);
  }

  /** Blanking the entry of a directory without entries leaks its cluster. */
  lemma DetachDir(fat: Fat, ts: Tables, l: Layout, s: Slot, c: Index)
    requires Inv(fat, ts, l) && s in l.chains && At(ts, s).IsDir() && l.chains[s] == [c]
    requires c in ts && c in l.home && NoLiveChild(ts[c])
    ensures s.dir in ts && Inv(fat, SetSlot(ts, s, Blanked(At(ts, s))) - {c}, DirDetached(l, s, c))
  {
    hide Entered, Chained, DistinctKeys, Headed, Ranked, Owned, Accounted, SetSlot, IsChain, Sized, Homed, At;
    DirectoriesKnown(fat, ts, l);
    NoEntriesBelow(ts, l.chains, c);
    DetachSlot(fat, ts, l.chains, s);
    DropTable(fat, SetSlot(ts, s, Blanked(At(ts, s))), l.chains - {s}, c);
    DetachOwned(l, s, fat);
    SlotsFromTwo(ts, l.chains);
    DetachHeaded(ts, l.home, s, Blanked(At(ts, s)), c);
    DetachRanked(fat, ts, l, c);
    DetachDirHomed(ts, l, s, c);
  }

  lemma NoEntriesBelow(ts: Tables, chains: ChainMap, c: Index)
    requires Entered(ts, chains) && c in ts && NoLiveChild(ts[c])
    ensures forall r | r in chains :: r.dir != c
  {
  }

  lemma DetachRanked(fat: Fat, ts: Tables, l: Layout, c: Index)
    requires Inv(fat, ts, l) && c in l.home && forall r | r in l.chains :: r.dir != c
    ensures Ranked(l.home - {c}, l.depth - {c})
  {
    hide Entered, Chained, DistinctKeys, Headed, Owned, Accounted, IsChain, Sized, At;
    HomesEntered(ts, l.home, l.chains);
    forall d | d in l.home
      ensures l.home[d].dir in l.depth && l.depth[d] == l.depth[l.home[d].dir] + 1
    {
      assert Parent(l.home, d) == l.home[d].dir;
    }
  }

  /** Owned clusters, said of the chains. */
  lemma ChainsOwnTheirClusters(fat: Fat, ts: Tables, l: Layout)
    requires Inv(fat, ts, l)
    ensures forall s, c: Index {:trigger c in l.chains[s]} | s in l.chains && c in l.chains[s] ::
              c > ROOT_CLUSTER && c in l.owner && l.owner[c] == s
    ensures forall c: Index | c in l.owner :: l.owner[c] in l.chains && c in l.chains[l.owner[c]]
    ensures forall c: Index :: fat[c] != EMPTY_ENTRY <==> c <= ROOT_CLUSTER || c in l.owner || c in l.leaked
  {
    hide Entered, Chained, DistinctKeys, Headed, Sized, Homed, Ranked;
  }

  /** Where a directory is entered. */
  lemma HomeKnown(fat: Fat, ts: Tables, l: Layout, d: Index)
    requires Inv(fat, ts, l) && d in l.home
    ensures var s := l.home[d];
            && s in l.chains && l.chains[s] == [d] && At(ts, s).IsDir()
            && s.dir in l.depth && d in l.depth && l.depth[d] == l.depth[s.dir] + 1
  {
    hide Entered, Chained, DistinctKeys, Headed, Sized, Owned, Accounted, At;
    assert Parent(l.home, d) == l.home[d].dir;
  }

  /** A live slot of a known directory heads its chain. */
  lemma EntryKnown(fat: Fat, ts: Tables, l: Layout, s: Slot)
    requires Inv(fat, ts, l) && s.dir in ts && s.pos >= 2
    ensures s in l.chains <==> At(ts, s).Live()
    ensures s in l.chains ==> IsChain(fat, l.chains[s]) && l.chains[s][0] == At(ts, s).Cluster()
  {
    hide Homed, Ranked, DistinctKeys, Headed, Sized, Owned, Accounted, At, IsChain;
  }

  lemma SlotKnown(fat: Fat, ts: Tables, l: Layout, s: Slot)
    requires Inv(fat, ts, l) && s in l.chains
    ensures s.dir in ts && s.pos >= 2
  {
    hide Chained, Homed, Ranked, DistinctKeys, Headed, Sized, Owned, Accounted, At;
  }

  /** The directory that an entry refers to. */
  lemma HomeOf(fat: Fat, ts: Tables, l: Layout, s: Slot)
    requires Inv(fat, ts, l) && s in l.chains && At(ts, s).IsDir()
    ensures |l.chains[s]| == 1 && l.chains[s][0] in l.home && l.home[l.chains[s][0]] == s
    ensures forall a | a in l.home && l.home[a] == s :: a == l.chains[s][0]
  {
    hide Entered, Chained, DistinctKeys, Headed, Sized, Owned, Accounted, At, Ranked;
    HomesEntered(ts, l.home, l.chains);
  }
}
