/** The page-frame allocator, over runs that only allocate. */
module Paging {
  import opened Bytes

  const PAGE_FRAME_SIZE := 0x40_0000
  const PAGE_FRAME_MAX_COUNT := 32
  const PAGE_ENTRY_COUNT := 1024
  const WORD := 0x1_0000_0000

  datatype Flag = Flag(present: bool, write: bool, user: bool, large: bool)

  /** The flag bits of a directory entry, the ten-bit frame number it maps to, and its remaining bits, which the
      allocator leaves alone. */
  datatype DirectoryEntry = DirectoryEntry(flag: Flag, rest: nat, lowerAddress: nat)

  const EMPTY_ENTRY: DirectoryEntry := DirectoryEntry(Flag(false, false, false, false), 0, 0)
  const USER_FLAG: Flag := Flag(true, true, true, true)

  type FrameMap = m: seq<bool> | |m| == PAGE_FRAME_MAX_COUNT witness Repeat(PAGE_FRAME_MAX_COUNT, false)
  type Directory = d: seq<DirectoryEntry> | |d| == PAGE_ENTRY_COUNT witness Repeat(PAGE_ENTRY_COUNT, EMPTY_ENTRY)

  /** How many of the first n frames are unused. */
  ghost function FreeCount(frames: FrameMap, n: nat): (c: nat)
    requires n <= PAGE_FRAME_MAX_COUNT
    ensures c <= n
    decreases |frames|, n
  {
    if n == 0 then 0 else FreeCount(frames, n - 1) + (if frames[n - 1] then 0 else 1)
  }

  /** The first unused frame from i on. */
  ghost function FirstUnused(frames: FrameMap, i: nat): (k: nat)
    requires i <= PAGE_FRAME_MAX_COUNT
    ensures i <= k <= PAGE_FRAME_MAX_COUNT && forall j | i <= j < k :: frames[j]
    ensures k < PAGE_FRAME_MAX_COUNT ==> !frames[k]
    decreases PAGE_FRAME_MAX_COUNT - i
  {
    if i == PAGE_FRAME_MAX_COUNT || !frames[i] then i else FirstUnused(frames, i + 1)
  }

  lemma {:induction false} CountWhenUsed(frames: FrameMap, n: nat)
    requires n <= PAGE_FRAME_MAX_COUNT
    ensures FreeCount(frames, n) == 0 <==> forall j | 0 <= j < n :: frames[j]
    decreases n
  {
    if n > 0 {
      CountWhenUsed(frames, n - 1);
    }
  }

  lemma {:induction false} CountAfterUse(frames: FrameMap, k: nat, n: nat)
    requires k < PAGE_FRAME_MAX_COUNT && !frames[k] && n <= PAGE_FRAME_MAX_COUNT
    ensures FreeCount(frames[k := true], n) == FreeCount(frames, n) - (if k < n then 1 else 0)
    decreases n
  {
    if n > 0 {
      CountAfterUse(frames, k, n - 1);
    }
  }

  /** The entry that a virtual address selects: its top ten bits. */
  function PageIndex(virtualAddress: u32): (i: nat)
    ensures i < PAGE_ENTRY_COUNT
  {
    virtualAddress / PAGE_FRAME_SIZE % PAGE_ENTRY_COUNT
  }

  /** The frame number that an entry gets for a physical address: bits 31 to 22. */
  function LowerAddress(physicalAddress: u32): nat {
    physicalAddress / PAGE_FRAME_SIZE % PAGE_ENTRY_COUNT
  }

  function UserEntry(e: DirectoryEntry, frame: nat): DirectoryEntry {
    e.(flag := USER_FLAG, lowerAddress := LowerAddress(frame * PAGE_FRAME_SIZE % WORD))
  }

  /** No frame number of the map overflows the address arithmetic or is cut to another one. */
  lemma FrameSurvives(frame: nat)
    requires frame < PAGE_ENTRY_COUNT
    ensures frame * PAGE_FRAME_SIZE < WORD && LowerAddress(frame * PAGE_FRAME_SIZE % WORD) == frame
  {
  }

  lemma AddressIs(physicalAddress: u32)
    ensures LowerAddress(physicalAddress) == physicalAddress / 0x40_0000
  {
  }

  lemma PageIs(virtualAddress: u32)
    ensures PageIndex(virtualAddress) == virtualAddress / 0x40_0000
  {
  }

  class PageManager {
    const frameMap: array<bool>
    var freeCount: u32

    ghost predicate Valid()
      reads this, frameMap
    {
      && frameMap.Length == PAGE_FRAME_MAX_COUNT && frameMap[0]
      && freeCount == FreeCount(frameMap[..], PAGE_FRAME_MAX_COUNT)
    }

    constructor ()
      ensures Valid() && fresh(frameMap) && freeCount == 31 && forall i | 0 <= i < 32 :: frameMap[i] <==> i == 0
    {
      frameMap := new bool[PAGE_FRAME_MAX_COUNT](i => i == 0);
      freeCount := PAGE_FRAME_MAX_COUNT - 1;
      new;
      AllButOne(frameMap[..], PAGE_FRAME_MAX_COUNT);
    }

    /** Whether that many bytes are free, in the source's 32-bit arithmetic. */
    method AllocateCheck(amount: u32) returns (enough: bool)
      requires Valid()
      ensures enough <==> FreeCount(frameMap[..], 32) * 0x40_0000 >= amount
    {
      enough := freeCount * PAGE_FRAME_SIZE % WORD >= amount;
    }

    method UpdateDirectoryEntry(directory: array<DirectoryEntry>, physicalAddress: u32, virtualAddress: u32, flag: Flag)
      requires directory.Length == PAGE_ENTRY_COUNT
      modifies directory
      ensures var page := virtualAddress / 0x40_0000;
              page < 1024 && directory[..] == old(directory[..])[page :=
                                old(directory[page]).(flag := flag, lowerAddress := physicalAddress / 0x40_0000)]
    {
      var page := virtualAddress / PAGE_FRAME_SIZE % PAGE_ENTRY_COUNT;
      directory[page] := directory[page].(flag := flag);
      directory[page] := directory[page].(lowerAddress := physicalAddress / PAGE_FRAME_SIZE % PAGE_ENTRY_COUNT);
    }

    /** First-fit allocation of one frame. */
    method AllocateUserPageFrame(directory: array<DirectoryEntry>, virtualAddress: u32) returns (ok: bool)
      requires Valid() && directory.Length == PAGE_ENTRY_COUNT
      modifies this, frameMap, directory
      ensures Valid()
      ensures var o := Allocate(old(frameMap[..]), old(directory[..]), virtualAddress);
              ok == o.ok && frameMap[..] == o.frames && directory[..] == o.directory
      ensures freeCount == if ok then old(freeCount) - 1 else old(freeCount)
    {
      hide FreeCount, LowerAddress, PageIndex;
      ghost var was: FrameMap := frameMap[..];
      PageIs(virtualAddress);
      CountWhenUsed(was, PAGE_FRAME_MAX_COUNT);
      var enough := AllocateCheck(PAGE_FRAME_SIZE);
      if !enough {
        return false;
      }
      var i := 0;
      while i < PAGE_FRAME_MAX_COUNT && frameMap[i]
        invariant 0 <= i <= PAGE_FRAME_MAX_COUNT && frameMap[..] == was
        invariant FirstUnused(was, i) == FirstUnused(was, 0)
      {
        i := i + 1;
      }
      FrameSurvives(i);
      AddressIs(i * PAGE_FRAME_SIZE % WORD);
      UpdateDirectoryEntry(directory, i * PAGE_FRAME_SIZE % WORD, virtualAddress, USER_FLAG);
      frameMap[i] := true;
      freeCount := freeCount - 1;
      CountAfterUse(was, i, PAGE_FRAME_MAX_COUNT);
      ok := true;
    }
  }

  lemma {:induction false} AllButOne(frames: FrameMap, n: nat)
    requires n <= PAGE_FRAME_MAX_COUNT && forall j | 0 <= j < PAGE_FRAME_MAX_COUNT :: frames[j] <==> j == 0
    ensures FreeCount(frames, n) == if n == 0 then 0 else n - 1
    decreases n
  {
    if n > 0 {
      AllButOne(frames, n - 1);
    }
  }

  // ---------- runs of allocations ----------

  datatype Allocation = Allocation(ok: bool, frames: FrameMap, directory: Directory)

  ghost function Allocate(frames: FrameMap, directory: Directory, virtualAddress: u32): Allocation {
    var k := FirstUnused(frames, 0);
    if k == PAGE_FRAME_MAX_COUNT then Allocation(false, frames, directory)
    else
      var page := PageIndex(virtualAddress);
      Allocation(true, frames[k := true], directory[page := UserEntry(directory[page], k)])
  }

  /** It succeeds exactly when a frame is unused, and then maps the page to the lowest such frame: the one entry that
      the address selects becomes present, writable, open to user code and a page of 4 megabytes. */
  lemma AllocateSucceedsWhenFree(frames: FrameMap, directory: Directory, virtualAddress: u32)
    ensures var o, i := Allocate(frames, directory, virtualAddress), virtualAddress / 0x40_0000;
            && i < 1024
            && (o.ok <==> FreeCount(frames, 32) > 0)
            && (o.ok ==>
                  var frame := o.directory[i].lowerAddress;
                  && frame < 32 && !frames[frame] && o.frames == frames[frame := true]
                  && (forall j | 0 <= j < frame :: frames[j])
                  && FreeCount(o.frames, 32) == FreeCount(frames, 32) - 1
                  && o.directory[i].flag == Flag(true, true, true, true)
                  && o.directory[i].rest == directory[i].rest
                  && forall j | 0 <= j < 1024 && j != i :: o.directory[j] == directory[j])
            && (!o.ok ==> o.frames == frames && o.directory == directory)
  {
    CountWhenUsed(frames, PAGE_FRAME_MAX_COUNT);
    var k := FirstUnused(frames, 0);
    if k < PAGE_FRAME_MAX_COUNT {
      FrameSurvives(k);
      CountAfterUse(frames, k, PAGE_FRAME_MAX_COUNT);
    }
  }

  /** One request: a page directory, by its number, and a virtual address. */
  datatype Page = Page(directory: nat, virtualAddress: u32)

  type Directories = map<nat, Directory>

  datatype Memory = Memory(frames: FrameMap, directories: Directories)

  ghost predicate Known(m: Memory, pages: seq<Page>) {
    forall p | p in pages :: p.directory in m.directories
  }

  ghost function AllocateIn(m: Memory, p: Page): Memory
    requires p.directory in m.directories
  {
    var o := Allocate(m.frames, m.directories[p.directory], p.virtualAddress);
    Memory(o.frames, m.directories[p.directory := o.directory])
  }

  ghost function AllocateAll(m: Memory, pages: seq<Page>): (m': Memory)
    requires Known(m, pages)
    ensures m'.directories.Keys == m.directories.Keys
    decreases |pages|
  {
    if pages == [] then m
    else
      var n := |pages| - 1;
      assert forall p | p in pages[..n] :: p in pages;
      assert pages[n] in pages;
      AllocateIn(AllocateAll(m, pages[..n]), pages[n])
  }

  /** An entry of some directory that maps a user page. */
  ghost predicate Maps(m: Memory, d: nat, i: nat) {
    d in m.directories && i < PAGE_ENTRY_COUNT && m.directories[d][i].flag.user
  }

  /** Every user page has a frame of its own, in use, and never the kernel's. */
  ghost predicate OwnFrames(m: Memory) {
    && m.frames[0]
    && (forall d: nat, i: nat | Maps(m, d, i) ::
          var frame := m.directories[d][i].lowerAddress; 0 < frame < PAGE_FRAME_MAX_COUNT && m.frames[frame])
    && (forall d: nat, i: nat, e: nat, j: nat | Maps(m, d, i) && Maps(m, e, j) && (d != e || i != j) ::
          m.directories[d][i].lowerAddress != m.directories[e][j].lowerAddress)
  }

  /** The entry that an allocation changes, and the frame that it takes. */
  lemma AllocationIs(frames: FrameMap, directory: Directory, virtualAddress: u32) returns (page: nat, frame: nat)
    requires Allocate(frames, directory, virtualAddress).ok
    ensures var o := Allocate(frames, directory, virtualAddress);
            && page < PAGE_ENTRY_COUNT && frame < PAGE_FRAME_MAX_COUNT && !frames[frame]
            && o.frames == frames[frame := true] && o.directory[page].lowerAddress == frame
            && forall j | 0 <= j < PAGE_ENTRY_COUNT && j != page :: o.directory[j] == directory[j]
  {
    hide FreeCount, Allocate;
    AllocateSucceedsWhenFree(frames, directory, virtualAddress);
    page := virtualAddress / 0x40_0000;
    frame := Allocate(frames, directory, virtualAddress).directory[page].lowerAddress;
  }

  lemma AllocationKeepsFrames(m: Memory, p: Page)
    requires OwnFrames(m) && p.directory in m.directories
    ensures OwnFrames(AllocateIn(m, p))
  {
    hide Allocate, FreeCount;
    var o := Allocate(m.frames, m.directories[p.directory], p.virtualAddress);
    if o.ok {
      var page, frame := AllocationIs(m.frames, m.directories[p.directory], p.virtualAddress);
      var m' := AllocateIn(m, p);
      forall d: nat, i: nat | Maps(m', d, i) && !(d == p.directory && i == page)
        ensures Maps(m, d, i) && m'.directories[d][i] == m.directories[d][i]
      {
      }
    } else {
      AllocateSucceedsWhenFree(m.frames, m.directories[p.directory], p.virtualAddress);
    }
  }

  /** Over any run of allocations from memory without user pages: every mapped page has a frame of its own other than
      frame 0, and the count of unused frames goes down by one with each allocation until none is left. */
  lemma {:induction false} DistinctFrames(m: Memory, pages: seq<Page>)
    requires OwnFrames(m) && Known(m, pages)
    ensures OwnFrames(AllocateAll(m, pages))
    ensures var free := FreeCount(m.frames, PAGE_FRAME_MAX_COUNT);
            FreeCount(AllocateAll(m, pages).frames, PAGE_FRAME_MAX_COUNT)
            == if |pages| <= free then free - |pages| else 0
    decreases |pages|
  {
    hide OwnFrames, FreeCount, Allocate;
    if pages != [] {
      var n := |pages| - 1;
      assert forall p | p in pages[..n] :: p in pages;
      assert pages[n] in pages;
      DistinctFrames(m, pages[..n]);
      var before, p := AllocateAll(m, pages[..n]), pages[n];
      AllocationKeepsFrames(before, p);
      AllocateSucceedsWhenFree(before.frames, before.directories[p.directory], p.virtualAddress);
    }
  }
}
