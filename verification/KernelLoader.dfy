/** Loading the accepted kernel image into physical memory. */
module KernelLoader {
  import opened Machine
  import opened ElfImage
  import opened ElfPlan
  import ElfSegments
  import opened Firmware

  datatype LoaderError =
    FileRead | ConfigInvalid | ElfInvalid | Allocation | KernelAddress | ContractStorage | Contract

  const STACK_GUARD_ADDRESS: u64 := 0x047f_f000

  /** The byte that a loaded segment puts at `address`: file data, then zeros to the page end. */
  function ImageByte(s: LoadSegment, address: int): u8
    requires s.physicalAddress <= address
  {
    var i := address - s.physicalAddress;
    if i < |s.fileData| then s.fileData[i] else 0
  }

  predicate Covers(s: LoadSegment, address: int) {
    s.physicalAddress <= address < ElfSegments.SegmentPageEnd(s)
  }

  function SegmentPages(s: LoadSegment): set<int> {
    var first := s.physicalAddress / PAGE_SIZE;
    PageRun(first, ElfSegments.SegmentPageEnd(s) / PAGE_SIZE - first)
  }

  /** Memory after loading `segments`: their images, and every other byte as before. */
  ghost predicate MemoryImage(before: seq<u8>, after: seq<u8>, segments: seq<LoadSegment>) {
    && |after| == |before|
    && (forall k | 0 <= k < |segments| :: HoldsImage(after, segments[k]))
    && (forall a | 0 <= a < |before| && Uncovered(segments, a) :: after[a] == before[a])
  }

  ghost predicate HoldsImage(ram: seq<u8>, s: LoadSegment) {
    && ElfSegments.SegmentPageEnd(s) <= |ram|
    && forall a | s.physicalAddress <= a < ElfSegments.SegmentPageEnd(s) :: ram[a] == ImageByte(s, a)
  }

  ghost predicate Uncovered(segments: seq<LoadSegment>, a: int) {
    forall k | 0 <= k < |segments| :: !Covers(segments[k], a)
  }

  ghost predicate AllFree(segments: seq<LoadSegment>, free: set<int>) {
    forall k | 0 <= k < |segments| :: SegmentPages(segments[k]) <= free
  }

  /** Segment `k` is the first one that needs a page which is not free. */
  ghost predicate FirstTaken(segments: seq<LoadSegment>, k: nat, free: set<int>) {
    && k < |segments| && !(SegmentPages(segments[k]) <= free)
    && forall j | 0 <= j < k :: SegmentPages(segments[j]) <= free
  }

  ghost function PlanPages(segments: seq<LoadSegment>): set<int> {
    if segments == [] then {}
    else PlanPages(segments[..|segments| - 1]) + SegmentPages(segments[|segments| - 1])
  }

  /** The loader's `div_ceil` page count names the pages of the parser's rounded range. */
  lemma PageCountsAgree(s: LoadSegment)
    requires ElfSegments.LoadableSegment(s)
    ensures PageRun(s.physicalAddress / PAGE_SIZE, (s.memorySize + PAGE_SIZE - 1) / PAGE_SIZE) == SegmentPages(s)
    ensures s.physicalAddress + (s.memorySize + PAGE_SIZE - 1) / PAGE_SIZE * PAGE_SIZE
         == ElfSegments.SegmentPageEnd(s)
  {
    var q := s.physicalAddress / 4096;
    assert s.physicalAddress == 4096 * q;
    assert (4096 * q + s.memorySize + 4095) / 4096 == q + (s.memorySize + 4095) / 4096;
    assert ElfSegments.SegmentPageEnd(s) == 4096 * (q + (s.memorySize + 4095) / 4096);
  }

  method LoadSegment(fw: Memory, s: LoadSegment) returns (r: Result<(), LoaderError>)
    requires fw.Valid() && ElfSegments.LoadableSegment(s)
    modifies fw`free, fw.ram
    ensures fw.Valid()
    ensures r == if SegmentPages(s) <= old(fw.free) then Ok(()) else Err(KernelAddress)
    ensures fw.free == if r.Ok? then old(fw.free) - SegmentPages(s) else old(fw.free)
    ensures MemoryImage(old(fw.ram[..]), fw.ram[..], if r.Ok? then [s] else [])
  {
    var pages := (s.memorySize + PAGE_SIZE - 1) / PAGE_SIZE;
    PageCountsAgree(s);
    var ok := fw.AllocateAt(s.physicalAddress, pages);
    if !ok {
      return Err(KernelAddress);
    }
    var allocationBytes := CheckedMul(pages, PAGE_SIZE);
    if allocationBytes.None? {
      assert false;
    }
    var base := s.physicalAddress;
    assert base + allocationBytes.value <= fw.ram.Length by {
      assert base / PAGE_SIZE + pages - 1 in SegmentPages(s);
    }
    forall i | base <= i < base + allocationBytes.value {
      fw.ram[i] := 0;
    }
    forall i | 0 <= i < |s.fileData| {
      fw.ram[base + i] := s.fileData[i];
    }
    OneSegmentImage(old(fw.ram[..]), fw.ram[..], s);
    return Ok(());
  }

  lemma OneSegmentImage(before: seq<u8>, after: seq<u8>, s: LoadSegment)
    requires |after| == |before| && HoldsImage(after, s)
    requires forall a | 0 <= a < |before| && !Covers(s, a) :: after[a] == before[a]
    ensures MemoryImage(before, after, [s])
  {
    forall a | 0 <= a < |before| && Uncovered([s], a)
      ensures after[a] == before[a]
    {
      assert !Covers([s][0], a);
    }
  }

  lemma ImageSnoc(before: seq<u8>, mid: seq<u8>, after: seq<u8>, segments: seq<LoadSegment>, s: LoadSegment)
    requires ElfSegments.LoadableSegments(segments + [s])
    requires MemoryImage(before, mid, segments)
    requires MemoryImage(mid, after, [s])
    ensures MemoryImage(before, after, segments + [s])
  {
    hide ElfSegments.SegmentPageEnd;
    var all := segments + [s];
    assert all[|segments|] == s && [s][0] == s;
    forall k | 0 <= k < |all|
      ensures HoldsImage(after, all[k])
    {
      if k < |segments| {
        assert all[k] == segments[k];
        assert ElfSegments.SegmentPageEnd(all[k]) <= all[|segments|].physicalAddress;
        assert HoldsImage(mid, segments[k]);
        forall a | segments[k].physicalAddress <= a < ElfSegments.SegmentPageEnd(segments[k])
          ensures after[a] == mid[a]
        {
          assert Uncovered([s], a);
        }
      } else {
        assert HoldsImage(after, [s][0]);
      }
    }
    forall a | 0 <= a < |before| && Uncovered(all, a)
      ensures after[a] == before[a]
    {
      assert !Covers(all[|segments|], a);
      assert Uncovered([s], a);
      assert Uncovered(segments, a) by {
        assert forall k | 0 <= k < |segments| :: all[k] == segments[k];
      }
    }
  }

  /** Pages of different segments never meet. */
  lemma {:induction false} LaterPagesDisjoint(segments: seq<LoadSegment>, k: nat, j: nat)
    requires ElfSegments.LoadableSegments(segments)
    requires k <= j < |segments|
    ensures SegmentPages(segments[j]) !! PlanPages(segments[..k])
  {
    if k > 0 {
      LaterPagesDisjoint(segments, k - 1, j);
      assert segments[..k][..k - 1] == segments[..k - 1];
      assert ElfSegments.SegmentPageEnd(segments[k - 1]) <= segments[j].physicalAddress;
    }
  }

  /**
    `load_segments`: succeeds exactly when every page of the plan was free, so an accepted
    image never collides with itself; on failure at segment `k` exactly the first `k` were loaded.
  */
  method LoadSegments(fw: Memory, elf: ValidatedElf) returns (r: Result<(), LoaderError>, ghost k: nat)
    requires fw.Valid() && Parse(elf.bytes) == Ok(elf)
    modifies fw`free, fw.ram
    ensures fw.Valid()
    ensures r == if AllFree(ElfSegments.SegmentsIn(elf), old(fw.free)) then Ok(()) else Err(KernelAddress)
    ensures k <= |ElfSegments.SegmentsIn(elf)| && (r.Ok? ==> k == elf.loadSegmentCount)
    ensures r.Err? ==> FirstTaken(ElfSegments.SegmentsIn(elf), k, old(fw.free))
    ensures fw.free == old(fw.free) - PlanPages(ElfSegments.SegmentsIn(elf)[..k])
    ensures MemoryImage(old(fw.ram[..]), fw.ram[..], ElfSegments.SegmentsIn(elf)[..k])
  {
    hide Parse, ElfSegments.LoadableSegments, ElfSegments.SegmentPageEnd, MemoryImage, SegmentPages,
         ElfSegments.NextFrom, ElfSegments.Yields;
    ghost var all := ElfSegments.SegmentsIn(elf);
    ElfSegments.ParsedSegmentsLoadable(elf);
    var segments := new ElfSegments.LoadSegments(elf);
    k := 0;
    NothingLoaded(fw.ram[..]);
    assert all[..0] == [];
    while true
      invariant fw.Valid()
      invariant segments.bytes == elf.bytes
      invariant segments.programHeaderOffset == elf.programHeaderOffset
      invariant segments.programHeaderCount == elf.programHeaderCount
      invariant k <= |all|
      invariant all[k..] == ElfSegments.Yields(elf.bytes, elf.programHeaderOffset, elf.programHeaderCount,
                                               segments.nextIndex)
      invariant fw.free == old(fw.free) - PlanPages(all[..k])
      invariant forall j | 0 <= j < k :: SegmentPages(all[j]) <= old(fw.free)
      invariant MemoryImage(old(fw.ram[..]), fw.ram[..], all[..k])
      decreases |all| - k
    {
      ElfSegments.YieldsStep(elf.bytes, elf.programHeaderOffset, elf.programHeaderCount, segments.nextIndex);
      ghost var rest := all[k..];
      var item := segments.Next();
      if item.None? {
        break;
      }
      assert rest[0] == item.value == all[k];
      assert rest[1..] == all[k + 1..];
      MemberLoadable(all, k);
      LaterPagesDisjoint(all, k, k);
      ghost var mid := fw.ram[..];
      r := LoadSegment(fw, item.value);
      if r.Err? {
        UnchangedImage(old(fw.ram[..]), mid, fw.ram[..], all[..k]);
        assert !(SegmentPages(all[k]) <= old(fw.free));
        return;
      }
      PrefixLoadable(all, k + 1);
      assert all[..k + 1] == all[..k] + [all[k]];
      ImageSnoc(old(fw.ram[..]), mid, fw.ram[..], all[..k], all[k]);
      assert all[..k + 1][..k] == all[..k];
      k := k + 1;
    }
    assert all[..k] == all;
    return Ok(()), k;
  }

  /** When every page of the load window is free, loading an accepted image cannot fail. */
  lemma FreeWindowLoads(elf: ValidatedElf, free: set<int>)
    requires Parse(elf.bytes) == Ok(elf)
    requires forall p | MIN_LOAD_ADDRESS / PAGE_SIZE <= p < MAX_LOAD_ADDRESS_EXCLUSIVE / PAGE_SIZE :: p in free
    ensures AllFree(ElfSegments.SegmentsIn(elf), free)
  {
    hide Parse, ElfSegments.Yields;
    ElfSegments.ParsedSegmentsLoadable(elf);
  }

  /** `reserve_stack_guard`: one fixed page. */
  method ReserveStackGuard(fw: Memory) returns (r: Result<(), LoaderError>)
    requires fw.Valid()
    modifies fw`free
    ensures fw.Valid()
    ensures r == if GUARD_PAGE in old(fw.free) then Ok(()) else Err(KernelAddress)
    ensures fw.free == if r.Ok? then old(fw.free) - {GUARD_PAGE} else old(fw.free)
  {
    assert PageRun(STACK_GUARD_ADDRESS / PAGE_SIZE, 1) == {GUARD_PAGE};
    var ok := fw.AllocateAt(STACK_GUARD_ADDRESS, 1);
    if !ok {
      return Err(KernelAddress);
    }
    return Ok(());
  }

  const GUARD_PAGE: int := 0x47ff

  lemma CoveredPage(s: LoadSegment, a: int)
    requires ElfSegments.LoadableSegment(s) && Covers(s, a)
    ensures a / PAGE_SIZE in SegmentPages(s)
  {
    var first := s.physicalAddress / PAGE_SIZE;
    assert s.physicalAddress == 4096 * first;
  }

  lemma {:induction false} PlanPagesContain(segments: seq<LoadSegment>, k: nat)
    requires k < |segments|
    ensures SegmentPages(segments[k]) <= PlanPages(segments)
  {
    hide SegmentPages;
    if k < |segments| - 1 {
      PlanPagesContain(segments[..|segments| - 1], k);
    }
  }

  lemma NothingLoaded(ram: seq<u8>)
    ensures MemoryImage(ram, ram, [])
  {
  }

  lemma UnchangedImage(before: seq<u8>, mid: seq<u8>, after: seq<u8>, segments: seq<LoadSegment>)
    requires MemoryImage(before, mid, segments) && MemoryImage(mid, after, [])
    ensures MemoryImage(before, after, segments)
  {
    assert after == mid;
  }

  lemma MemberLoadable(segments: seq<LoadSegment>, k: nat)
    requires ElfSegments.LoadableSegments(segments) && k < |segments|
    ensures ElfSegments.LoadableSegment(segments[k])
  {
  }

  lemma PrefixLoadable(segments: seq<LoadSegment>, n: nat)
    requires ElfSegments.LoadableSegments(segments) && n <= |segments|
    ensures ElfSegments.LoadableSegments(segments[..n])
  {
  }
}
