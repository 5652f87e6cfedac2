/** The read-only view of the heap that the assertion layer queries.  Every
    query is an external collaborator (region store, mark bitmaps, collection
    set, forwarding pointers, connection matrix) and is taken as an arbitrary
    total function. */
module HeapView {
  import opened Outcomes

  /** A machine address; 0 is the null pointer. */
  type Addr = nat

  const NULL: Addr := 0

  /** The per-region flags the asserts read. */
  datatype Region = Region(active: bool, humongousStart: bool, humongousContinuation: bool)

  datatype Heap = Heap(
    inHeap: Addr -> bool,                          // heap->is_in
    regionIndex: Addr -> nat,                      // heap_region_index_containing
    regions: seq<Region>,                          // heap->regions(), region number = position
    fwd: Addr -> Addr,                             // BrooksPointer::get_raw_unchecked
    size: Addr -> nat,                             // obj->size(), in words
    klass: Addr -> nat,                            // obj->klass()
    allocatedAfterCompleteMarkStart: Addr -> bool,
    allocatedAfterNextMarkStart: Addr -> bool,
    markedComplete: Addr -> bool,
    markedNext: Addr -> bool,
    inCollectionSet: Addr -> bool,
    fullGcMoveInProgress: bool,
    connected: (nat, nat) -> bool                  // connection_matrix()->is_connected
  )

  /** Constants and helpers defined outside the assertion layer. */
  datatype Config = Config(
    brooksWordSize: nat,                           // BrooksPointer::word_size()
    humongousThresholdWords: nat,                  // ShenandoahHeapRegion::humongous_threshold_words()
    heapWordSize: nat,                             // HeapWordSize
    requiredRegions: nat -> nat,                   // ShenandoahHeapRegion::required_regions(bytes)
    useMatrix: bool                                // UseShenandoahMatrix
  )

  /** heap_region_containing: the region table entry for the address, or null
      when the computed index is past the end of the table. */
  function RegionContaining(h: Heap, a: Addr): (r: Option<nat>)
    ensures r.Some? ==> r.value < |h.regions|
  {
    if h.regionIndex(a) < |h.regions| then Some(h.regionIndex(a)) else None
  }

  /** The region store's promise: every heap address lies in a region of the table. */
  ghost predicate WellFormed(h: Heap) {
    forall a :: h.inHeap(a) ==> h.regionIndex(a) < |h.regions|
  }

  /** The object's Brooks pointer points away from it. */
  predicate IsForwarded(h: Heap, obj: Addr) {
    h.fwd(obj) != obj
  }
}
