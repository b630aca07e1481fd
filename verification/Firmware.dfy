/**
  The firmware's page allocator over physical memory, as section 7.2.1 of the UEFI
  Specification 2.10 describes `AllocatePages`: a fixed-address request succeeds exactly
  when every page is free, and an any-page request returns the free run that the firmware
  offers or fails.  The offer is a parameter: every choice and every refusal is an input.
*/
module Firmware {
  import opened Machine
  import opened ElfImage

  /** The page numbers `first`, `first + 1`, ... */
  function PageRun(first: int, count: int): (r: set<int>)
    ensures forall p :: p in r <==> first <= p < first + count
    decreases if count < 0 then 0 else count
  {
    if count <= 0 then {} else PageRun(first, count - 1) + {first + count - 1}
  }

  /** The offer names a run of free pages that does not start at address zero. */
  predicate Grants(offer: Option<int>, pages: nat, free: set<int>) {
    && offer.Some? && offer.value > 0 && PageRun(offer.value, pages) <= free
    && (offer.value + pages) * PAGE_SIZE < U64_LIMIT
  }

  class Memory {
    const ram: array<u8>
    var free: set<int>

    ghost predicate Valid()
      reads this
    {
      && ram.Length < U64_LIMIT
      && forall p | p in free :: 0 <= p && (p + 1) * PAGE_SIZE <= ram.Length
    }

    /** `AllocateType::Address`. */
    method AllocateAt(address: u64, pages: nat) returns (ok: bool)
      requires Valid()
      modifies this`free
      ensures Valid()
      ensures ok <==> address % PAGE_SIZE == 0 && PageRun(address / PAGE_SIZE, pages) <= old(free)
      ensures free == if ok then old(free) - PageRun(address / PAGE_SIZE, pages) else old(free)
    {
      ok := address % PAGE_SIZE == 0 && PageRun(address / PAGE_SIZE, pages) <= free;
      if ok {
        free := free - PageRun(address / PAGE_SIZE, pages);
      }
    }

    /** `AllocateType::AnyPages`: an offer that is not a free run counts as a refusal. */
    method AllocateAny(pages: nat, offer: Option<int>) returns (base: Option<u64>)
      requires Valid() && pages > 0
      modifies this`free
      ensures Valid()
      ensures base == if Grants(offer, pages, old(free)) then Some(offer.value * PAGE_SIZE) else None
      ensures free == if base.Some? then old(free) - PageRun(offer.value, pages) else old(free)
    {
      if offer.None? || offer.value <= 0 || !(PageRun(offer.value, pages) <= free) {
        return None;
      }
      assert offer.value + pages - 1 in PageRun(offer.value, pages);
      free := free - PageRun(offer.value, pages);
      return Some(offer.value * PAGE_SIZE);
    }
  }
}
