/** The kernel allocator: kmalloc, kfree and krealloc on headers linked by address (kernel/mem/kmalloc.c).

    Only one caller is inside at a time. The page source is a parameter: `page` is what liballoc_alloc
    returns if this call asks it for pages, NULL when it has none. */
module Kmalloc {
  import opened HeapShape
  import opened HeapState

  // ---------- room ----------

  /** A block of `size` bytes fits the gap before entry j of the k-th major block. */
  ghost predicate GapFits(h: Heap, k: int, j: int, size: nat)
    requires Listed(h) && 0 <= k < |h.order| && 0 <= j <= |h.chains[k]| && Known(h.chains[k], h.minors)
  {
    FitsGap(h, k, j, GapStart(h.chains[k], j, h.order[k] + MAJOR_HEADER, h.minors), size)
  }

  ghost predicate Full(h: Heap, k: int, size: nat)
    requires Listed(h) && 0 <= k < |h.order|
  {
    Known(h.chains[k], h.minors) && forall j :: 0 <= j <= |h.chains[k]| ==> !GapFits(h, k, j, size)
  }

  /** The gap that starts at a is the first of the k-th major block that a block of `size` bytes fits. */
  ghost predicate FirstGap(h: Heap, k: int, a: Addr, size: nat)
    requires Listed(h) && 0 <= k < |h.order|
  {
    Known(h.chains[k], h.minors) &&
    exists j :: 0 <= j <= |h.chains[k]| && GapFits(h, k, j, size) &&
                a == GapStart(h.chains[k], j, h.order[k] + MAJOR_HEADER, h.minors) &&
                forall i :: 0 <= i < j ==> !GapFits(h, k, i, size)
  }

  /** No major block has room for another `size` bytes. */
  ghost predicate NoRoom(h: Heap, size: nat)
    requires Listed(h)
  {
    forall k :: 0 <= k < |h.order| ==> Full(h, k, size)
  }

  /** Too little free memory in all is too little in each gap. */
  lemma TooFullForGaps(h: Heap, k: int, size: nat)
    requires Listed(h) && 0 <= k < |h.order| && EntryOk(h, k)
    requires h.majors[h.order[k]].size - h.majors[h.order[k]].usage < size + MINOR_HEADER
    ensures Full(h, k, size)
  {
    var m, c := h.order[k], h.chains[k];
    forall j | 0 <= j <= |c| ensures !GapFits(h, k, j, size) {
      GapBound(c, j, m + MAJOR_HEADER, m + h.majors[m].size, h.minors);
    }
  }

  lemma GapBound(c: seq<Addr>, j: nat, lo: Addr, hi: Addr, minors: Minors)
    requires Known(c, minors) && Placed(c, lo, hi, minors) && j <= |c|
    ensures lo + Taken(c, minors) + GapEnd(c, j, hi) - GapStart(c, j, lo, minors) <= hi
  {
    FrontPlaced(c, j, lo, hi, minors);
    TakenFits(c[..j], lo, GapStart(c, j, lo, minors), minors);
    BackPlaced(c, j, lo, hi, minors);
    TakenFits(c[j..], GapEnd(c, j, hi), hi, minors);
    SizesAppend(c[..j], c[j..], minors);
    assert c[..j] + c[j..] == c;
  }

  lemma FrontPlaced(c: seq<Addr>, j: nat, lo: Addr, hi: Addr, minors: Minors)
    requires Known(c, minors) && Placed(c, lo, hi, minors) && j <= |c|
    ensures Known(c[..j], minors) && Placed(c[..j], lo, GapStart(c, j, lo, minors), minors)
  {
    forall i | 0 <= i < j ensures End(minors, c[i]) <= GapStart(c, j, lo, minors) {
      if i < j - 1 { BeforeNext(c, lo, hi, minors, i, j - 1); }
    }
  }

  lemma BackPlaced(c: seq<Addr>, j: nat, lo: Addr, hi: Addr, minors: Minors)
    requires Known(c, minors) && Placed(c, lo, hi, minors) && j <= |c|
    ensures Known(c[j..], minors) && Placed(c[j..], GapEnd(c, j, hi), hi, minors)
  {
    forall i | j <= i < |c| ensures c[j] <= c[i] {
      if j < i { BeforeNext(c, lo, hi, minors, j, i); }
    }
  }

  // ---------- the header behind a user's pointer ----------

  /** Where the allocator looks for the header of the block whose user's pointer is p. */
  function HeaderOf(memory: Addr -> int, p: Addr): Addr
    requires p >= PAGE_SIZE
  {
    var diff := memory(p - ALIGN_INFO);
    (if 0 <= diff < ALIGNMENT + ALIGN_INFO then p - diff else p) - MINOR_HEADER
  }

  /** For every live block, that is its own header. */
  lemma HeaderOfUser(h: Heap, a: Addr)
    requires HeapOk(h) && Live(h, a) && User(a) >= PAGE_SIZE
    ensures HeaderOf(h.memory, User(a)) == a
  {
    var k, j := FindLive(h, a);
    UserIsAligned(a);
    assert NotedBlock(h.chains[k][j], h.minors, h.memory);
  }

  // ---------- what a call does to the blocks ----------

  /** What liballoc_alloc may return to a request for `size` bytes: nothing, or pages not in use. */
  ghost predicate PageSource(h: Heap, page: Addr, size: nat)
    requires Listed(h)
  {
    page == NULL || PagesFree(h, page, PagesFor(size))
  }

  /** Pages enough for one block of `size` bytes and both headers. */
  function PagesFor(size: nat): (n: nat)
    ensures (n - 1) * PAGE_SIZE < size + MAJOR_HEADER + MINOR_HEADER <= n * PAGE_SIZE
    ensures (n - 1) * 4096 < size + 80 <= n * 4096
  {
    var st := size + MAJOR_HEADER + MINOR_HEADER;
    if st % PAGE_SIZE == 0 then st / PAGE_SIZE else st / PAGE_SIZE + 1
  }

  /** The block at a is new; no other block appears, vanishes or changes its size, and of memory only the
      new block's alignment note changes. */
  ghost predicate NewBlock(h: Heap, h': Heap, a: Addr, reqSize: nat) {
    !Live(h, a) && Live(h', a) && h'.minors[a].reqSize == reqSize && NoteWritten(a, h.memory, h'.memory) &&
    (forall b :: b != a ==> (Live(h', b) <==> Live(h, b))) &&
    (forall b :: Live(h, b) ==> SameBlock(h, h', b))
  }

  /** The block at b keeps its size, its requested size and its major block. */
  ghost predicate SameBlock(h: Heap, h': Heap, b: Addr)
    requires b in h.minors && b in h'.minors
  {
    h'.minors[b].size == h.minors[b].size && h'.minors[b].reqSize == h.minors[b].reqSize &&
    h'.minors[b].block == h.minors[b].block
  }

  /** The major blocks of h are as large as before. */
  ghost predicate SameMajors(h: Heap, h': Heap) {
    forall m :: m in h.order ==>
      m in h.majors && m in h'.majors && h'.majors[m].pages == h.majors[m].pages &&
      h'.majors[m].size == h.majors[m].size
  }

  /** The block at a is gone; nothing else changes for any other block. */
  ghost predicate GoneBlock(h: Heap, h': Heap, a: Addr) {
    Live(h, a) && !Live(h', a) && h'.memory == h.memory &&
    (forall b :: b != a ==> (Live(h', b) <==> Live(h, b))) &&
    (forall b :: Live(h', b) ==> SameBlock(h, h', b))
  }

  lemma LiveElsewhere(h: Heap, k: int, j: int, a: Addr, size: nat, b: Addr)
    requires Shaped(h) && 0 <= k < |h.order| && 0 <= j <= |h.chains[k]| && EntryOk(h, k)
    requires FitsGap(h, k, j, a, size) && size >= ALIGNMENT + ALIGN_INFO && Live(h, b)
    ensures b != a
  {
    var i, l := FindLive(h, b);
    if i == k {
      GapApart(h.chains[k], j, h.order[k] + MAJOR_HEADER, h.order[k] + h.majors[h.order[k]].size, h.minors, a, size, l);
    } else {
      GapInside(h, k, j, a, size);
      OtherMajor(h, k, i, l, a, size);
    }
  }

  lemma InsertedIsNew(h: Heap, h': Heap, k: int, j: int, a: Addr, x: Minor)
    requires Shaped(h) && 0 <= k < |h.order| && 0 <= j <= |h.chains[k]| && EntryOk(h, k)
    requires FitsGap(h, k, j, a, x.size) && x.size >= ALIGNMENT + ALIGN_INFO && InsertedInto(h, h', k, j, a, x) &&
             x.magic == MAGIC
    ensures NewBlock(h, h', a, x.reqSize)
  {
    forall b | Live(h, b) ensures b != a {
      LiveElsewhere(h, k, j, a, x.size, b);
    }
    InsertedHeaders(h.chains[k], j, a, x, h.minors, h'.minors);
  }

  lemma InsertedHeaders(c: seq<Addr>, j: nat, a: Addr, x: Minor, minors: Minors, minors': Minors)
    requires j <= |c| && Known(c, minors) && InsertedAt(c, j, a, x, minors, minors')
    ensures minors'.Keys == minors.Keys + {a} && minors'[a].magic == x.magic && minors'[a].reqSize == x.reqSize &&
            minors'[a].block == x.block
    ensures forall b :: b in minors && b != a ==>
              minors'[b].magic == minors[b].magic && minors'[b].size == minors[b].size &&
                minors'[b].reqSize == minors[b].reqSize && minors'[b].block == minors[b].block
  {
  }

  lemma InsertedIsTaken(h: Heap, h': Heap, k: int, j: int, a: Addr, x: Minor)
    requires HeapOk(h) && 0 <= k < |h.order| && EntryOk(h, k) && 0 <= j <= |h.chains[k]|
    requires FitsGap(h, k, j, a, x.size) && InsertedInto(h, h', k, j, a, x)
    requires x.block == h.order[k] && x.magic == MAGIC && x.reqSize + ALIGNMENT + ALIGN_INFO == x.size
    ensures Took(h, h', h.order[k], a, x.size, x.reqSize)
  {
    hide HeapOk, NewBlock, FitsGap;
    InsertKeepsHeap(h, h', k, j, a, x);
    HasShape(h);
    InsertedIsNew(h, h', k, j, a, x);
    InsertedMajors(h, h', k, j, a, x);
  }

  lemma HasShape(h: Heap)
    requires HeapOk(h)
    ensures Shaped(h)
  {
  }

  lemma InsertedMajors(h: Heap, h': Heap, k: int, j: int, a: Addr, x: Minor)
    requires Listed(h) && 0 <= k < |h.order| && 0 <= j <= |h.chains[k]| && Known(h.chains[k], h.minors)
    requires InsertedInto(h, h', k, j, a, x)
    ensures SameMajors(h, h') && h'.minors[a].block == x.block && h'.minors[a].size == x.size
  {
  }

  /** New pages leave the other major blocks as large as they are. */
  lemma AppendedMajors(h: Heap, h': Heap, page: Addr, pages: nat)
    requires HeapOk(h) && Appended(h, h', page, pages) && PagesFree(h, page, pages) && pages > 0
    ensures SameMajors(h, h') && page in h'.majors && h'.majors[page].pages == pages && page !in h.order
  {
    forall i | 0 <= i < |h.order| ensures h.order[i] != page {
      assert EntryOk(h, i);
      BlockFacts(h, i);
    }
  }

  lemma RemovedIsGone(h: Heap, h': Heap, k: int, j: int)
    requires Shaped(h) && 0 <= k < |h.order| && 0 <= j < |h.chains[k]| && EntryOk(h, k) && RemovedFrom(h, h', k, j)
    ensures GoneBlock(h, h', h.chains[k][j])
  {
    BlockInside(h, k, j);
  }

  /** One block of `size` bytes is allocated at a, in the major block at m, for a request of reqSize bytes. */
  ghost predicate Took(h: Heap, h': Heap, m: Addr, a: Addr, size: nat, reqSize: nat) {
    HeapOk(h') && NewBlock(h, h', a, reqSize) && h'.minors[a].size == size && h'.inuseBytes == h.inuseBytes + size &&
    h'.allocatedBytes == h.allocatedBytes && h'.order == h.order && m in h.order && h'.minors[a].block == m &&
    h'.bestBet == h.bestBet && SameMajors(h, h')
  }

  /** Any listed major block may be the best bet. */
  lemma BetKeepsHeap(h: Heap, h': Heap)
    requires HeapOk(h) && h' == h.(bestBet := h'.bestBet) && h'.bestBet in h.order
    ensures HeapOk(h')
  {
    forall i | 0 <= i < |h.order| ensures MajorEntry(h', i) && EntryOk(h', i) {
      assert MajorEntry(h, i) && EntryOk(h, i);
    }
    SameHomes(h, h');
    SameMajorsApart(h, h');
    ChainsKnown(h);
    forall i | 0 <= i < |h.order|
      ensures EntryOk(h, i) && Sizes(h'.chains[i], h'.minors) == Sizes(h.chains[i], h.minors)
    {
    }
    SameSums(h, h');
  }

  class Allocator {
    var majors: map<Addr, Major>
    var minors: Minors
    var memory: Addr -> int
    var memRoot: Addr
    var bestBet: Addr
    var inuse: int
    var allocatedBytes: int
    var warningCount: int
    var errorCount: int
    var possibleOverruns: int
    /** The addresses of the major blocks, and for each of them those of its blocks, in list order. */
    ghost var order: seq<Addr>
    ghost var chains: seq<seq<Addr>>

    ghost function State(): Heap
      reads this
    {
      Heap(majors, minors, memory, memRoot, bestBet, inuse, allocatedBytes, order, chains)
    }

    constructor ()
      ensures HeapOk(State()) && minors == map[] && order == []
    {
      majors, minors, memory := map[], map[], a => 0;
      memRoot, bestBet, inuse, allocatedBytes := NULL, NULL, 0, 0;
      warningCount, errorCount, possibleOverruns := 0, 0, 0;
      order, chains := [], [];
      new;
      ChainsKnown(State());
      assert InUse(State()) == [] && Allocated(State()) == [];
    }

    // ---------- alignment ----------

    /** ALIGN */
    method Align(p: Addr, ghost a: Addr) returns (q: Addr)
      requires p == a + MINOR_HEADER
      modifies this`memory
      ensures q == User(a) && NoteWritten(a, old(memory), memory)
    {
      q := p + ALIGN_INFO;
      var diff := q % ALIGNMENT;
      if diff != 0 {
        diff := ALIGNMENT - diff;
        q := q + diff;
      }
      var mem, at := memory, q - ALIGN_INFO;
      memory := (b: Addr) => if b == at then diff + ALIGN_INFO else mem(b);
    }

    /** UNALIGN. A negative char converts to an address far above the limit. */
    method Unalign(p: Addr) returns (q: Addr)
      requires p >= PAGE_SIZE
      ensures q == HeaderOf(memory, p) + MINOR_HEADER
    {
      var diff := memory(p - ALIGN_INFO);
      q := p;
      if 0 <= diff < ALIGNMENT + ALIGN_INFO {
        q := q - diff;
      }
    }

    // ---------- new pages ----------

    /** allocate_new_page */
    method AllocateNewPage(size: nat, page: Addr) returns (maj: Addr)
      modifies this`majors, this`allocatedBytes, this`warningCount
      ensures maj == page
      ensures page == NULL ==>
                majors == old(majors) && allocatedBytes == old(allocatedBytes) && warningCount == old(warningCount) + 1
      ensures page != NULL ==>
                majors == old(majors)[page := Major(NULL, NULL, PagesFor(size), PagesFor(size) * PAGE_SIZE,
                                                    MAJOR_HEADER, NULL)] &&
                allocatedBytes == old(allocatedBytes) + PagesFor(size) * PAGE_SIZE && warningCount == old(warningCount)
    {
      var st := size + MAJOR_HEADER;
      st := st + MINOR_HEADER;
      if st % PAGE_SIZE == 0 {
        st := st / PAGE_SIZE;
      } else {
        st := st / PAGE_SIZE + 1;
      }
      if st < PAGE_COUNT {
        st := PAGE_COUNT;
      }
      maj := page;
      if maj == NULL {
        warningCount := warningCount + 1;
        return NULL;
      }
      majors := majors[maj := Major(NULL, NULL, st, st * PAGE_SIZE, MAJOR_HEADER, NULL)];
      allocatedBytes := allocatedBytes + st * PAGE_SIZE;
    }

    /** New pages become the first major block. */
    method GrowRoot(size: nat, page: Addr)
      requires HeapOk(State()) && memRoot == NULL && PageSource(State(), page, size)
      modifies this`majors, this`memRoot, this`allocatedBytes, this`warningCount, this`order, this`chains
      ensures page == NULL ==> State() == old(State())
      ensures page != NULL ==>
                HeapOk(State()) && Appended(old(State()), State(), page, PagesFor(size)) && memRoot == page
      ensures warningCount == old(warningCount) + (if page == NULL then 1 else 0)
    {
      memRoot := AllocateNewPage(size, page);
      if page != NULL {
        order, chains := order + [page], chains + [[]];
        AppendKeepsHeap(old(State()), State(), page, PagesFor(size));
      }
    }

    /** New pages are linked in after the last major block. */
    method LinkAfter(maj: Addr, size: nat, page: Addr)
      requires Listed(State()) && |order| > 0 && maj == order[|order| - 1] && majors[maj].next == NULL && page != maj &&
               memRoot != NULL
      modifies this`majors, this`memRoot, this`allocatedBytes, this`warningCount, this`order, this`chains
      ensures page == NULL ==> State() == old(State())
      ensures page != NULL ==> Appended(old(State()), State(), page, PagesFor(size)) && majors[maj].next == page
      ensures warningCount == old(warningCount) + (if page == NULL then 1 else 0)
    {
      var next := AllocateNewPage(size, page);
      ghost var bare := majors;
      majors := majors[maj := majors[maj].(next := next)];
      if next != NULL {
        TwoKeys(old(majors), maj, page, bare[page], majors[maj], majors[page].(prev := maj));
        majors := majors[next := majors[next].(prev := maj)];
        order, chains := order + [page], chains + [[]];
      }
    }

    /** New pages become the major block after the last one. */
    method GrowAfter(maj: Addr, size: nat, page: Addr)
      requires HeapOk(State()) && |order| > 0 && maj == order[|order| - 1] && PageSource(State(), page, size)
      modifies this`majors, this`memRoot, this`allocatedBytes, this`warningCount, this`order, this`chains
      ensures page == NULL ==> State() == old(State())
      ensures page != NULL ==>
                HeapOk(State()) && Appended(old(State()), State(), page, PagesFor(size)) && majors[maj].next == page
      ensures warningCount == old(warningCount) + (if page == NULL then 1 else 0)
    {
      assert MajorEntry(State(), |order| - 1) && EntryOk(State(), |order| - 1);
      HasHeader(State(), |order| - 1);
      LinkAfter(maj, size, page);
      if page != NULL {
        AppendKeepsHeap(old(State()), State(), page, PagesFor(size));
      }
    }

    // ---------- a block in a gap ----------

    /** What every case does after it has linked in its header: charge the size and align the pointer. */
    method Charge(maj: Addr, a: Addr, size: nat) returns (p: Addr)
      requires maj in majors
      modifies this`majors, this`inuse, this`memory
      ensures p == User(a) && NoteWritten(a, old(memory), memory) && inuse == old(inuse) + size
      ensures majors == old(majors)[maj := old(majors)[maj].(usage := old(majors)[maj].usage + (size + MINOR_HEADER))]
    {
      majors := majors[maj := majors[maj].(usage := majors[maj].usage + (size + MINOR_HEADER))];
      inuse := inuse + size;
      p := a + MINOR_HEADER;
      p := Align(p, a);
    }

    /** The rest of a case that has linked in the header x at a, in a gap of a heap h. */
    method Commit(maj: Addr, a: Addr, size: nat, ghost h: Heap, ghost k: int, ghost j: int,
                  ghost x: Minor)
      returns (p: Addr)
      requires Listed(h) && 0 <= k < |h.order| && Known(h.chains[k], h.minors) && 0 <= j <= |h.chains[k]| &&
               h.order[k] == maj
      requires InsertedAt(h.chains[k], j, a, x, h.minors, minors) && x.size == size
      requires State() == h.(minors := minors,
                             majors := h.majors[maj := h.majors[maj].(first := Nth(Insert(h.chains[k], j, a), 0))])
      modifies this`majors, this`minors, this`memory, this`inuse, this`chains
      ensures p == User(a) && InsertedInto(h, State(), k, j, a, x)
    {
      ghost var linked := majors[maj];
      p := Charge(maj, a, size);
      Rewritten(h.majors, maj, linked, majors[maj]);
      chains := h.chains[k := Insert(h.chains[k], j, a)];
    }

    /** CASE 2: the major block is empty. */
    method TakeFirst(maj: Addr, size: nat, reqSize: nat, ghost k: int) returns (p: Addr, ghost a: Addr)
      requires HeapOk(State()) && 0 <= k < |order| && order[k] == maj && EntryOk(State(), k)
      requires majors[maj].first == NULL && majors[maj].size - majors[maj].usage >= size + MINOR_HEADER
      requires reqSize + ALIGNMENT + ALIGN_INFO == size
      modifies this`majors, this`minors, this`memory, this`inuse, this`chains
      ensures p == User(a) && Took(old(State()), State(), maj, a, size, reqSize)
      ensures a == maj + MAJOR_HEADER
    {
      ghost var h := State();
      EmptyChain(h, k);
      var first := maj + MAJOR_HEADER;
      a := first;
      majors := majors[maj := majors[maj].(first := first)];
      minors := minors[first := Minor(NULL, NULL, maj, MAGIC, size, reqSize)];
      ghost var x := Minor(NULL, NULL, maj, MAGIC, size, reqSize);
      p := Commit(maj, first, size, h, k, 0, x);
      InsertedIsTaken(h, State(), k, 0, a, x);
    }

    /** CASE 3: there is room in front of the first block. */
    method TakeFront(maj: Addr, size: nat, reqSize: nat, ghost k: int) returns (p: Addr, ghost a: Addr)
      requires HeapOk(State()) && 0 <= k < |order| && order[k] == maj && EntryOk(State(), k)
      requires |chains[k]| > 0 && GapFits(State(), k, 0, size)
      requires reqSize + ALIGNMENT + ALIGN_INFO == size
      modifies this`majors, this`minors, this`memory, this`inuse, this`chains
      ensures p == User(a) && Took(old(State()), State(), maj, a, size, reqSize)
      ensures a == maj + MAJOR_HEADER
    {
      ghost var h := State();
      var first, front := majors[maj].first, maj + MAJOR_HEADER;
      a := front;
      minors := minors[first := minors[first].(prev := front)];
      minors := minors[front := Minor(NULL, first, maj, MAGIC, size, reqSize)];
      majors := majors[maj := majors[maj].(first := front)];
      ghost var x := Minor(NULL, first, maj, MAGIC, size, reqSize);
      p := Commit(maj, front, size, h, k, 0, x);
      InsertedIsTaken(h, State(), k, 0, a, x);
    }

    /** CASE 4.1: there is room after the last block. */
    method TakeBack(maj: Addr, min: Addr, size: nat, reqSize: nat, ghost k: int) returns (p: Addr, ghost a: Addr)
      requires HeapOk(State()) && 0 <= k < |order| && order[k] == maj && EntryOk(State(), k)
      requires |chains[k]| > 0 && chains[k][|chains[k]| - 1] == min && GapFits(State(), k, |chains[k]|, size)
      requires reqSize + ALIGNMENT + ALIGN_INFO == size
      modifies this`majors, this`minors, this`memory, this`inuse, this`chains
      ensures p == User(a) && Took(old(State()), State(), maj, a, size, reqSize)
      ensures min in old(minors) && a == End(old(minors), min)
    {
      ghost var h := State();
      ghost var n := |chains[k]|;
      assert LinkedEntry(chains[k], n - 1, maj, minors);
      var next := min + MINOR_HEADER + minors[min].size;
      a := next;
      minors := minors[min := minors[min].(next := next)];
      minors := minors[next := Minor(min, NULL, maj, MAGIC, size, reqSize)];
      SameFirst(h, k, n, next);
      ghost var x := Minor(min, NULL, maj, MAGIC, size, reqSize);
      p := Commit(maj, next, size, h, k, n, x);
      InsertedIsTaken(h, State(), k, n, a, x);
    }

    /** The header that CASE 4.2 puts behind the one at min. */
    method LinkBetween(maj: Addr, min: Addr, size: nat, reqSize: nat) returns (newMin: Addr)
      requires min in minors && minors[min].next in minors && min != minors[min].next &&
               End(minors, min) != minors[min].next
      modifies this`minors
      ensures newMin == End(old(minors), min)
      ensures var next := old(minors)[min].next;
              minors == old(minors)[newMin := Minor(min, next, maj, MAGIC, size, reqSize)]
                        [next := old(minors)[next].(prev := newMin)]
                        [min := old(minors)[min].(next := newMin)]
    {
      newMin := min + MINOR_HEADER + minors[min].size;
      var next := minors[min].next;
      minors := minors[newMin := Minor(min, next, maj, MAGIC, size, reqSize)];
      minors := minors[next := minors[next].(prev := newMin)];
      minors := minors[min := minors[min].(next := newMin)];
    }

    /** CASE 4.2: there is room between two blocks. */
    method TakeBetween(maj: Addr, min: Addr, size: nat, reqSize: nat, ghost k: int, ghost l: int)
      returns (p: Addr, ghost a: Addr)
      requires HeapOk(State()) && 0 <= k < |order| && order[k] == maj && EntryOk(State(), k)
      requires 0 <= l < |chains[k]| - 1 && chains[k][l] == min && GapFits(State(), k, l + 1, size)
      requires reqSize + ALIGNMENT + ALIGN_INFO == size
      modifies this`majors, this`minors, this`memory, this`inuse, this`chains
      ensures p == User(a) && Took(old(State()), State(), maj, a, size, reqSize)
      ensures min in old(minors) && a == End(old(minors), min)
    {
      ghost var h := State();
      BetweenFacts(h, k, l);
      ghost var next := minors[min].next;
      var newMin := LinkBetween(maj, min, size, reqSize);
      a := newMin;
      Spliced(chains[k], l + 1, newMin, Minor(min, next, maj, MAGIC, size, reqSize), h.minors, minors);
      SameFirst(h, k, l + 1, newMin);
      ghost var x := Minor(min, next, maj, MAGIC, size, reqSize);
      p := Commit(maj, newMin, size, h, k, l + 1, x);
      InsertedIsTaken(h, State(), k, l + 1, a, x);
    }

    /** Cases 4.1 and 4.2: the gap behind one block. */
    method FitBehind(maj: Addr, min: Addr, size: nat, reqSize: nat, ghost k: int, ghost l: int)
      returns (p: Addr, ghost a: Addr)
      requires HeapOk(State()) && 0 <= k < |order| && order[k] == maj && EntryOk(State(), k)
      requires 0 <= l < |chains[k]| && chains[k][l] == min && reqSize + ALIGNMENT + ALIGN_INFO == size
      modifies this`majors, this`minors, this`memory, this`inuse, this`chains
      ensures p == NULL ==>
                State() == old(State()) && !GapFits(State(), k, l + 1, size) &&
                minors[min].next == Nth(chains[k], l + 1)
      ensures p != NULL ==>
                p == User(a) && Took(old(State()), State(), maj, a, size, reqSize) &&
                GapFits(old(State()), k, l + 1, size) && min in old(minors) && a == End(old(minors), min)
    {
      BlockInside(State(), k, l);
      assert LinkedEntry(chains[k], l, maj, minors);
      if minors[min].next == NULL {
        LastBlock(State(), k, l);
        var diff := maj + majors[maj].size - min - MINOR_HEADER - minors[min].size;
        if diff >= size + MINOR_HEADER {
          p, a := TakeBack(maj, min, size, reqSize, k);
          return;
        }
      }
      if minors[min].next != NULL {
        assert End(minors, chains[k][l]) <= chains[k][l + 1];
        var diff := minors[min].next - min - MINOR_HEADER - minors[min].size;
        if diff >= size + MINOR_HEADER {
          p, a := TakeBetween(maj, min, size, reqSize, k, l);
          return;
        }
      }
      p, a := NULL, NULL;
    }

    /** Cases 2 and 3: an empty major block, or the gap in front of its first block. */
    method FitInFront(maj: Addr, size: nat, reqSize: nat, ghost k: int) returns (p: Addr, ghost a: Addr)
      requires HeapOk(State()) && 0 <= k < |order| && order[k] == maj && EntryOk(State(), k)
      requires majors[maj].size - majors[maj].usage >= size + MINOR_HEADER && reqSize + ALIGNMENT + ALIGN_INFO == size
      modifies this`majors, this`minors, this`memory, this`inuse, this`chains
      ensures p == NULL ==>
                State() == old(State()) && majors[maj].first != NULL && majors[maj].first == Nth(chains[k], 0) &&
                !GapFits(State(), k, 0, size)
      ensures p != NULL ==>
                p == User(a) && Took(old(State()), State(), maj, a, size, reqSize) &&
                GapFits(old(State()), k, 0, size) && a == maj + MAJOR_HEADER
    {
      if majors[maj].first == NULL {
        EmptyChain(State(), k);
        assert GapFits(State(), k, 0, size);
        p, a := TakeFirst(maj, size, reqSize, k);
        return;
      }
      BlockInside(State(), k, 0);
      var diff := majors[maj].first - maj - MAJOR_HEADER;
      if diff >= size + MINOR_HEADER {
        p, a := TakeFront(maj, size, reqSize, k);
        return;
      }
      p, a := NULL, NULL;
    }

    /** Cases 2 to 4: look through the gaps of one major block that has enough free memory in all. */
    method Fit(maj: Addr, size: nat, reqSize: nat, ghost k: int) returns (p: Addr, ghost a: Addr)
      requires HeapOk(State()) && 0 <= k < |order| && order[k] == maj && EntryOk(State(), k)
      requires majors[maj].size - majors[maj].usage >= size + MINOR_HEADER && reqSize + ALIGNMENT + ALIGN_INFO == size
      modifies this`majors, this`minors, this`memory, this`inuse, this`chains
      ensures p == NULL ==> State() == old(State()) && Full(State(), k, size) && majors[maj].first != NULL
      ensures p != NULL ==>
                p == User(a) && Took(old(State()), State(), maj, a, size, reqSize) && FirstGap(old(State()), k, a, size)
    {
      p, a := FitInFront(maj, size, reqSize, k);
      if p != NULL {
        return;
      }
      ghost var c := chains[k];
      var min := majors[maj].first;
      ghost var l := 0;
      while min != NULL
        invariant State() == old(State()) && 0 <= l <= |c| && min == Nth(c, l)
        invariant forall j :: 0 <= j <= l ==> !GapFits(State(), k, j, size)
        decreases |c| - l
      {
        p, a := FitBehind(maj, min, size, reqSize, k, l);
        if p != NULL {
          return;
        }
        min := minors[min].next;
        l := l + 1;
      }
      p, a := NULL, NULL;
    }

    /** The major block at maj has the most free memory seen so far: remember it. */
    method NoteBest(maj: Addr, bestSize: nat, diff: nat) returns (best: nat)
      requires HeapOk(State()) && maj in order
      modifies this`bestBet
      ensures HeapOk(State()) && SameLists(old(State()), State())
      ensures best == (if bestSize < diff then diff else bestSize)
      ensures bestBet == if bestSize < diff then maj else old(bestBet)
    {
      best := bestSize;
      if bestSize < diff {
        bestBet := maj;
        best := diff;
        BetKeepsHeap(old(State()), State());
      }
    }

    /** No major block had room: ask for pages behind the last one. */
    method GrowLast(ghost h: Heap, maj: Addr, size: nat, page: Addr)
      requires HeapOk(State()) && |order| > 0 && maj == order[|order| - 1] && PageSource(State(), page, size)
      requires SameLists(h, State()) && NoRoom(State(), size)
      modifies this`majors, this`memRoot, this`allocatedBytes, this`warningCount, this`order, this`chains
      ensures page == NULL ==> State() == old(State()) && majors[maj].next == NULL && NoRoom(h, size)
      ensures page != NULL ==>
                HeapOk(State()) && Grown(h, State(), page, size) && Roomy(State(), |order| - 1, size) &&
                maj in majors && bestBet == old(bestBet) && majors[maj].next == page && order[|order| - 1] == page &&
                EntryOk(State(), |order| - 1)
      ensures warningCount == old(warningCount) + (if page == NULL then 1 else 0)
    {
      SameNoRoom(State(), h, size);
      assert MajorEntry(State(), |order| - 1);
      GrowAfter(maj, size, page);
      if page != NULL {
        AppendedMajors(old(State()), State(), page, PagesFor(size));
      }
    }

    /** The major block at maj is too full: go on to the next one, back to the first one, or to new pages. */
    method Hop(ghost h: Heap, maj: Addr, startedBet: bool, size: nat, page: Addr, bestSize: nat, ghost k0: int,
               ghost bet0: bool, ghost k: int, ghost grown0: bool)
      returns (to: Addr, bet: bool, isNew: bool, ghost k': int)
      requires Looked(h, State(), k0, bet0, k, maj, startedBet, false, grown0, size, page, bestSize)
      requires Listed(State()) && 0 <= k < |order| && Full(State(), k, size)
      modifies this`majors, this`memRoot, this`allocatedBytes, this`warningCount, this`order, this`chains
      ensures to != NULL ==> OnTheWay(h, State(), k0, bet0, k', to, bet, isNew, grown0, size, page, bestSize)
      ensures to != NULL && isNew ==>
                Looked(h, State(), k0, bet0, k', to, bet, true, grown0, size, page, bestSize) && HasRoom(to, size)
      ensures to != NULL ==>
                isNew || (startedBet && !bet) || (bet == startedBet && State() == old(State()) && k' == k + 1)
      ensures to != NULL && isNew ==> bet == startedBet
      ensures to == NULL ==> page == NULL && HeapOk(State()) && SearchFailed(h, State(), size)
      ensures warningCount == old(warningCount) + (if to == NULL then 1 else 0)
    {
      hide Passed, BetSoFar, BetOfAll;
      assert MajorEntry(State(), k);
      PassedOn(h, State(), k0, bet0, k, startedBet, size);
      BetPassed(h, k0, bet0, k, startedBet, bestBet);
      isNew := false;
      if majors[maj].next != NULL {
        to, bet, k' := majors[maj].next, startedBet, k + 1;
        return;
      }
      assert k == |order| - 1;
      if startedBet {
        to, bet, k' := memRoot, false, 0;
        return;
      }
      GrowLast(h, maj, size, page);
      to, bet, isNew, k' := majors[maj].next, false, true, k + 1;
    }

    ghost predicate HasRoom(maj: Addr, size: nat)
      reads this
    {
      maj in majors && majors[maj].size - majors[maj].usage >= size + MINOR_HEADER
    }

    /** A gap in the major block at maj, if there is one; in fresh pages there is. */
    method FitHere(ghost h: Heap, maj: Addr, startedBet: bool, size: nat, reqSize: nat, page: Addr, bestSize: nat,
                   ghost k0: int, ghost bet0: bool, ghost k: int, ghost grown: bool, ghost grown0: bool)
      returns (p: Addr, ghost a: Addr)
      requires Looked(h, State(), k0, bet0, k, maj, startedBet, grown, grown0, size, page, bestSize)
      requires maj in majors && majors[maj].size - majors[maj].usage >= size + MINOR_HEADER
      requires reqSize + ALIGNMENT + ALIGN_INFO == size
      modifies this`majors, this`minors, this`memory, this`inuse, this`chains
      ensures p != NULL ==> p == User(a) && TookGrown(h, State(), a, size, reqSize, page, grown0)
      ensures p != NULL ==> Listed(h) && Chosen(h, k0, bet0, a, size, page, bestBet)
      ensures p == NULL ==>
                !grown && State() == old(State()) && Listed(State()) && 0 <= k < |order| && Full(State(), k, size)
    {
      hide Chosen, TookGrown, BetSoFar, BetOfAll, Passed, FirstGap;
      assert EntryOk(State(), k);
      p, a := Fit(maj, size, reqSize, k);
      if p != NULL {
        FoundInSearch(h, old(State()), State(), k, maj, startedBet, grown, grown0, size, reqSize, page, a);
        FoundIsChosen(h, old(State()), k0, bet0, k, maj, startedBet, grown, grown0, size, page, a, bestBet);
      }
    }

    /** The search through the major blocks, from maj on. */
    method Search(start: Addr, bet: bool, best: nat, size: nat, reqSize: nat, page: Addr, ghost k0: int,
                  ghost grown0: bool)
      returns (p: Addr, ghost a: Addr)
      requires OnTheWay(State(), State(), k0, bet, k0, start, bet, grown0, grown0, size, page, best)
      requires reqSize + ALIGNMENT + ALIGN_INFO == size && start != NULL
      modifies this`majors, this`minors, this`memory, this`memRoot, this`bestBet, this`inuse, this`allocatedBytes,
        this`warningCount, this`order, this`chains
      ensures p != NULL ==> p == User(a) && TookGrown(old(State()), State(), a, size, reqSize, page, grown0)
      ensures p != NULL ==>
                Listed(old(State())) && Chosen(old(State()), k0, bet, a, size, page, bestBet)
      ensures p == NULL ==> page == NULL && HeapOk(State()) && SearchFailed(old(State()), State(), size)
      ensures warningCount == old(warningCount) + (if p == NULL then 1 else 0)
    {
      hide OnTheWay, Looked, Chosen, TookGrown, HeapOk, SearchFailed;
      ghost var k, grown := k0, grown0;
      var maj, startedBet, bestSize, isNew := start, bet, best, false;
      while maj != NULL
        invariant maj != NULL ==>
                    OnTheWay(old(State()), State(), k0, bet, k, maj, startedBet, grown, grown0, size, page, bestSize)
        invariant maj == NULL ==> page == NULL && HeapOk(State()) && SearchFailed(old(State()), State(), size)
        invariant warningCount == old(warningCount) + (if maj == NULL then 1 else 0)
        decreases if startedBet then 1 else 0, if grown then 0 else 1, |order| - k
      {
        var diff;
        diff, bestSize := Weigh(old(State()), maj, bestSize, startedBet, size, page, k0, bet, k, grown, grown0);
        if diff < size + MINOR_HEADER {
          maj, startedBet, isNew, k := Hop(old(State()), maj, startedBet, size, page, bestSize, k0, bet, k, grown0);
          grown := isNew;
          if maj == NULL {
            break;
          }
          if !isNew {
            continue;
          }
        }
        p, a := FitHere(old(State()), maj, startedBet, size, reqSize, page, bestSize, k0, bet, k, grown, grown0);
        if p != NULL {
          return;
        }
        maj, startedBet, isNew, k := Hop(old(State()), maj, startedBet, size, page, bestSize, k0, bet, k, grown0);
        grown := isNew;
        if maj == NULL {
          break;
        }
      }
      p, a := NULL, NULL;
    }

    /** The free memory of a major block, remembered if it is the most so far. */
    method Weigh(ghost h: Heap, maj: Addr, bestSize: nat, startedBet: bool, size: nat, page: Addr, ghost k0: int,
                 ghost bet0: bool, ghost k: int, ghost grown: bool, ghost grown0: bool)
      returns (diff: nat, best: nat)
      requires OnTheWay(h, State(), k0, bet0, k, maj, startedBet, grown, grown0, size, page, bestSize)
      modifies this`bestBet
      ensures Looked(h, State(), k0, bet0, k, maj, startedBet, grown, grown0, size, page, best)
      ensures maj in majors && diff == majors[maj].size - majors[maj].usage
      ensures diff < size + MINOR_HEADER ==>
                !grown && Listed(State()) && 0 <= k < |order| && Full(State(), k, size)
    {
      hide Passed, BetSoFar, BetOfAll;
      assert EntryOk(State(), k);
      BlockFacts(State(), k);
      diff := majors[maj].size - majors[maj].usage;
      best := NoteBest(maj, bestSize, diff);
      BetKeepsSearching(h, old(State()), State(), k, maj, startedBet, grown, grown0, size, page);
      if grown && !grown0 {
        assert maj == page;
      } else {
        BetLooked(h, old(State()), State(), k0, bet0, k, startedBet, best);
      }
      assert EntryOk(State(), k);
      if diff < size + MINOR_HEADER {
        TooFullForGaps(State(), k, size);
      }
    }

    /** kmalloc. (Its test for a size of 0 comes after the room for alignment was added, so it never holds.) */
    method Kmalloc(reqSize: nat, page: Addr) returns (p: Addr, ghost a: Addr)
      requires HeapOk(State()) && PageSource(State(), page, reqSize + ALIGNMENT + ALIGN_INFO)
      modifies this`majors, this`minors, this`memory, this`memRoot, this`bestBet, this`inuse, this`allocatedBytes,
        this`warningCount, this`order, this`chains
      ensures MallocDone(old(State()), State(), p, a, reqSize, page)
      ensures p != NULL ==> WellPlaced(old(State()), a, reqSize + 32, page, bestBet)
      ensures p == NULL ==> BetOfAll(old(State()), bestBet)
      ensures warningCount == old(warningCount) + (if p == NULL then 1 else 0)
    {
      hide OnTheWay, Chosen, TookGrown, SearchFailed;
      var size := reqSize + ALIGNMENT + ALIGN_INFO;
      ghost var h := State();
      ghost var grown := false;
      if memRoot == NULL {
        assert order == [];
        GrowRoot(size, page);
        if memRoot == NULL {
          return NULL, NULL;
        }
        grown := true;
        EmptyMajor(h, State(), page, size);
      }
      var maj, startedBet, bestSize := memRoot, false, 0;
      ghost var k := 0;
      if bestBet != NULL {
        k :| 0 <= k < |order| && order[k] == bestBet;
        BlockFacts(State(), k);
        bestSize := majors[bestBet].size - majors[bestBet].usage;
        if bestSize > size + MINOR_HEADER {
          maj, startedBet := bestBet, true;
        } else {
          k := 0;
        }
      }
      ghost var h1 := State();
      StartIsOnTheWay(h1, k, startedBet, maj, grown, size, page, bestSize);
      p, a := Search(maj, startedBet, bestSize, size, reqSize, page, k, grown);
      if p == NULL {
        FailedIsFailed(h1, State(), size);
      } else {
        if grown { FirstPages(h, h1, a, size, page, bestBet); }
        IsMallocDone(h, h1, State(), grown, p, a, reqSize, page);
      }
    }

    // ---------- kfree ----------

    /** A header without the magic number: count the error, and whether its lowest bytes still fit. */
    method CountError(magic: nat)
      modifies this`errorCount, this`possibleOverruns
      ensures errorCount == old(errorCount) + 1
      ensures possibleOverruns == old(possibleOverruns) + (if magic % 0x100 == 0xde then 1 else 0)
    {
      errorCount := errorCount + 1;
      if magic % 0x100_0000 == MAGIC % 0x100_0000 || magic % 0x1_0000 == MAGIC % 0x1_0000 ||
        magic % 0x100 == MAGIC % 0x100 {
        possibleOverruns := possibleOverruns + 1;
      }
    }

    /** The magic number of the header at min; `stray` is what memory holds there if no header was ever written. */
    function MagicAt(min: Addr, stray: nat): nat
      reads this
    {
      if min in minors then minors[min].magic else stray
    }

    /** Take a block out of the list of its major block. */
    method Unlink(min: Addr, ghost k: int, ghost j: int)
      requires Detachable(State(), k, j) && chains[k][j] == min
      modifies this`majors, this`minors, this`inuse, this`chains
      ensures RemovedFrom(old(State()), State(), k, j)
    {
      ghost var h, c := State(), chains[k];
      var maj := minors[min].block;
      inuse := inuse - minors[min].size;
      majors := majors[maj := majors[maj].(usage := majors[maj].usage - (minors[min].size + MINOR_HEADER))];
      UnlinkMinor(min, c, j);
      if minors[min].prev == NULL {
        Rewritten(h.majors, maj, majors[maj], majors[maj].(first := minors[min].next));
        majors := majors[maj := majors[maj].(first := minors[min].next)];
      }
      chains := chains[k := Without(c, j)];
      assert majors[maj].first == Nth(Without(c, j), 0);
    }

    method UnlinkMinor(min: Addr, ghost c: seq<Addr>, ghost j: int)
      requires Known(c, minors) && 0 <= j < |c| && c[j] == min
      requires minors[min].next == Nth(c, j + 1) && minors[min].prev == Nth(c, j - 1) && NULL !in c
      requires (forall i :: 0 <= i < |c| && i != j ==> c[i] != c[j]) && (0 < j < |c| - 1 ==> c[j - 1] != c[j + 1])
      modifies this`minors
      ensures RemovedAt(c, j, old(minors), minors)
      ensures minors[min].next == old(minors)[min].next && minors[min].prev == old(minors)[min].prev
    {
      minors := minors[min := minors[min].(magic := DEAD)];
      if minors[min].next != NULL {
        minors := minors[minors[min].next := minors[minors[min].next].(prev := minors[min].prev)];
      }
      if minors[min].prev != NULL {
        minors := minors[minors[min].prev := minors[minors[min].prev].(next := minors[min].next)];
      }
    }

    /** Take an empty major block out of the list. */
    method DropMajor(maj: Addr, ghost k: int)
      requires Droppable(State(), k) && order[k] == maj
      modifies this`majors, this`memRoot, this`bestBet, this`allocatedBytes, this`order, this`chains
      ensures Dropped(old(State()), State(), k)
    {
      if memRoot == maj {
        memRoot := majors[maj].next;
      }
      if bestBet == maj {
        bestBet := NULL;
      }
      if majors[maj].prev != NULL {
        majors := majors[majors[maj].prev := majors[majors[maj].prev].(next := majors[maj].next)];
      }
      if majors[maj].next != NULL {
        majors := majors[majors[maj].next := majors[majors[maj].next].(prev := majors[maj].prev)];
      }
      allocatedBytes := allocatedBytes - majors[maj].size;
      order, chains := Without(order, k), Without(chains, k);
    }

    /** The best bet is the freed block's major block, if that has more free memory now (compared as int). */
    method Rebet(maj: Addr)
      requires HeapOk(State()) && maj in order
      modifies this`bestBet
      ensures HeapOk(State()) && SameLists(old(State()), State())
      ensures bestBet == BetAfter(old(State()), maj)
    {
      if bestBet != NULL {
        var b := bestBet;
        var bestSize := ToInt(majors[b].size - majors[b].usage);
        var majSize := ToInt(majors[maj].size - majors[maj].usage);
        if majSize > bestSize {
          bestBet := maj;
          BetKeepsHeap(old(State()), State());
        }
      }
    }

    /** kfree. Pages of a major block that becomes empty go back: `freed` is its address. `stray` is what memory holds
        for a magic number where no header was ever written. */
    method Kfree(ptr: Addr, stray: nat) returns (freed: Addr, pages: nat)
      requires HeapOk(State()) && (ptr == NULL || ptr >= PAGE_SIZE) && stray != MAGIC
      modifies this
      ensures ptr == NULL || !Live(old(State()), HeaderOf(old(memory), ptr)) ==>
                State() == old(State()) && freed == NULL
      ensures ptr != NULL && Live(old(State()), HeaderOf(old(memory), ptr)) ==>
                FreeDone(old(State()), State(), HeaderOf(old(memory), ptr), freed, pages) &&
                BetFreed(old(State()), State(), HeaderOf(old(memory), ptr), freed)
      ensures warningCount == old(warningCount) + (if ptr == NULL then 1 else 0)
      ensures errorCount
           == old(errorCount) + (if ptr == NULL || Live(old(State()), HeaderOf(old(memory), ptr)) then 0 else 1)
      ensures possibleOverruns
           == old(possibleOverruns) + old(if ptr == NULL || MagicAt(HeaderOf(memory, ptr), stray) == MAGIC then 0
                                          else if MagicAt(HeaderOf(memory, ptr), stray) % 0x100 == 0xde then 1 else 0)
    {
      freed, pages := NULL, 0;
      if ptr == NULL {
        warningCount := warningCount + 1;
        return;
      }
      var min := Unalign(ptr);
      min := min - MINOR_HEADER;
      if MagicAt(min, stray) != MAGIC {
        CountError(MagicAt(min, stray));
        return;
      }
      freed, pages := FreeBlock(min);
    }

    /** The rest of kfree, for a live block. */
    method FreeBlock(min: Addr) returns (freed: Addr, pages: nat)
      requires HeapOk(State()) && Live(State(), min)
      modifies this`majors, this`minors, this`inuse, this`memRoot, this`bestBet, this`allocatedBytes, this`order,
        this`chains
      ensures FreeDone(old(State()), State(), min, freed, pages)
      ensures BetFreed(old(State()), State(), min, freed)
    {
      ghost var h := State();
      ghost var k, j := FindLive(h, min);
      var maj := minors[min].block;
      MayDetach(h, k, j);
      Unlink(min, k, j);
      ghost var h1 := State();
      RemoveKeepsHeap(h, h1, k, j);
      RemovedIsGone(h, h1, k, j);
      freed, pages := Tidy(maj, k);
      FreeIsDone(h, h1, State(), k, j, freed, pages);
      BetIsFreed(h, h1, State(), k, j, freed);
    }

    /** After a block is gone: give back its major block if that is empty. */
    method Tidy(maj: Addr, ghost k: int) returns (freed: Addr, pages: nat)
      requires HeapOk(State()) && 0 <= k < |order| && order[k] == maj
      modifies this`majors, this`memRoot, this`bestBet, this`allocatedBytes, this`order, this`chains
      ensures HeapOk(State())
      ensures freed != NULL <==> old(chains)[k] == []
      ensures freed == NULL ==> SameLists(old(State()), State()) && bestBet == BetAfter(old(State()), maj)
      ensures freed != NULL ==> freed == maj && pages == old(majors)[maj].pages && Dropped(old(State()), State(), k)
    {
      assert EntryOk(State(), k);
      freed, pages := NULL, 0;
      if majors[maj].first == NULL {
        EmptyChain(State(), k);
        MayDrop(State(), k);
        freed, pages := maj, majors[maj].pages;
        DropMajor(maj, k);
        DropKeepsHeap(old(State()), State(), k);
      } else {
        Rebet(maj);
      }
    }

    // ---------- krealloc ----------

    /** liballoc_memcpy: words of four bytes as long as there are four, then bytes. */
    method Memcpy(d: Addr, s: Addr, n: nat)
      requires d + n <= s || s + n <= d
      modifies this`memory
      ensures Copied(old(memory), memory, d, s, n)
    {
      ghost var was := memory;
      var i: nat := 0;
      NothingCopied(memory, d, s);
      while n - i >= 4
        invariant i <= n && Copied(was, memory, d, s, i)
      {
        CopyWord(d, s, i, was);
        i := i + 4;
      }
      while n - i > 0
        invariant i <= n && Copied(was, memory, d, s, i)
      {
        CopyByte(d, s, i, was);
        i := i + 1;
      }
    }

    method CopyWord(d: Addr, s: Addr, i: nat, ghost was: Addr -> int)
      requires Copied(was, memory, d, s, i) && (d + i + 4 <= s || s + i + 4 <= d)
      modifies this`memory
      ensures Copied(was, memory, d, s, i + 4)
    {
      var now := memory;
      memory := (b: Addr) => if d + i <= b < d + i + 4 then now(s + (b - d)) else now(b);
      CopiedMore(was, now, memory, d, s, i, 4);
    }

    method CopyByte(d: Addr, s: Addr, i: nat, ghost was: Addr -> int)
      requires Copied(was, memory, d, s, i) && (d + i + 1 <= s || s + i + 1 <= d)
      modifies this`memory
      ensures Copied(was, memory, d, s, i + 1)
    {
      var now := memory;
      memory := (b: Addr) => if b == d + i then now(s + i) else now(b);
      CopiedMore(was, now, memory, d, s, i, 1);
    }

    /** krealloc. Growing needs a place for the larger block: room in a gap, or pages. */
    method Krealloc(p: Addr, size: nat, page: Addr, stray: nat)
      returns (r: Addr, freed: Addr, pages: nat, ghost b: Addr)
      requires HeapOk(State()) && (p == NULL || p >= PAGE_SIZE) && stray != MAGIC
      requires PageSource(State(), page, size + ALIGNMENT + ALIGN_INFO)
      requires p != NULL && Live(State(), HeaderOf(memory, p)) ==> p == User(HeaderOf(memory, p))
      requires p != NULL && Live(State(), HeaderOf(memory, p)) && minors[HeaderOf(memory, p)].reqSize < size ==>
                 page != NULL || !NoRoom(State(), size + ALIGNMENT + ALIGN_INFO)
      modifies this
      ensures HeapOk(State())
      ensures size == 0 ==> r == NULL
      ensures size == 0 && p != NULL && Live(old(State()), HeaderOf(old(memory), p)) ==>
                FreeDone(old(State()), State(), HeaderOf(old(memory), p), freed, pages)
      ensures size > 0 && p == NULL ==> MallocDone(old(State()), State(), r, b, size, page)
      ensures p != NULL && !Live(old(State()), HeaderOf(old(memory), p)) ==>
                r == NULL && State() == old(State()) && errorCount == old(errorCount) + 1
      ensures p != NULL && Live(old(State()), HeaderOf(old(memory), p)) ==>
                errorCount == old(errorCount) && possibleOverruns == old(possibleOverruns)
      ensures size > 0 && p != NULL && Live(old(State()), HeaderOf(old(memory), p)) ==>
                var a := HeaderOf(old(memory), p);
                if old(minors)[a].reqSize >= size then
                  r == p && State() == old(State()).(minors := old(minors)[a := old(minors)[a].(reqSize := size)])
                else r == User(b) && Moved(old(State()), State(), a, b, size) &&
                     MovedPages(old(State()), State(), a, b, size, page, freed, pages)
    {
      hide Moved, MovedPages, FreeDone, PagesFree, TookGrown, WellPlaced, BetFreed, BetOfAll;
      freed, pages, b := NULL, 0, NULL;
      if size == 0 {
        freed, pages := Kfree(p, stray);
        return NULL, freed, pages, NULL;
      }
      if p == NULL {
        r, b := Kmalloc(size, page);
        return;
      }
      var min := Unalign(p);
      min := min - MINOR_HEADER;
      if MagicAt(min, stray) != MAGIC {
        CountError(MagicAt(min, stray));
        return NULL, NULL, 0, NULL;
      }
      if minors[min].reqSize >= size {
        minors := minors[min := minors[min].(reqSize := size)];
        ShrinkKeepsHeap(old(State()), State(), min, size);
        return p, NULL, 0, NULL;
      }
      r, freed, pages, b := Grow(p, min, size, page, stray);
    }

    /** The growing part of krealloc: a new block, a copy, and the old block is freed. */
    method Grow(p: Addr, min: Addr, size: nat, page: Addr, stray: nat)
      returns (ptr: Addr, freed: Addr, pages: nat, ghost b: Addr)
      requires HeapOk(State()) && p >= PAGE_SIZE && stray != MAGIC && Live(State(), min) && p == User(min) &&
               minors[min].reqSize < size
      requires PageSource(State(), page, size + ALIGNMENT + ALIGN_INFO)
      requires page != NULL || !NoRoom(State(), size + ALIGNMENT + ALIGN_INFO)
      modifies this
      ensures HeapOk(State()) && ptr == User(b) && Moved(old(State()), State(), min, b, size)
      ensures MovedPages(old(State()), State(), min, b, size, page, freed, pages)
      ensures warningCount == old(warningCount) && errorCount == old(errorCount) &&
              possibleOverruns == old(possibleOverruns)
    {
      hide Moved, MovedPages, PagesFree, WellPlaced, BetFreed, BetOfAll, MallocDone, TookGrown, NewBlock, FreeDone,
        GoneBlock, HeapOk;
      HasShape(State());
      var realSize := minors[min].reqSize;
      ptr, b := Kmalloc(size, page);
      ghost var h1 := State();
      MallocGives(old(State()), h1, ptr, b, size, page, min);
      CopyIsSafe(h1, min, b, realSize);
      Memcpy(ptr, p, realSize);
      CopyKeepsHeap(h1, State(), min, b, realSize);
      HeaderOfUser(State(), min);
      ghost var h2 := State();
      freed, pages := Kfree(p, stray);
      FreeGives(h2, State(), min, freed, pages);
      IsMoved(old(State()), h1, h2, State(), min, b, size);
      IsMovedPages(old(State()), h1, h2, State(), min, b, size, page, freed, pages);
    }

    /** The user stores a byte inside a live block. */
    method Store(ghost a: Addr, x: Addr, v: int)
      requires HeapOk(State()) && Live(State(), a) && InUserRange(State(), a, x)
      modifies this`memory
      ensures HeapOk(State()) && memory(x) == v && forall y: Addr :: y != x ==> memory(y) == old(memory)(y)
    {
      var was := memory;
      memory := (b: Addr) => if b == x then v else was(b);
      OwnRangeWrite(old(State()), State(), a);
    }
  }

  /** n bytes from s are copied to d, and nothing else changes. */
  ghost predicate Copied(memory: Addr -> int, memory': Addr -> int, d: Addr, s: Addr, n: nat) {
    forall b: Addr {:trigger memory'(b)} :: memory'(b) == memory(Source(d, s, n, b))
  }

  /** Where a copy of n bytes from s to d takes its byte at b from. */
  function Source(d: Addr, s: Addr, n: nat, b: Addr): Addr {
    if d <= b < d + n then s + (b - d) else b
  }

  lemma NothingCopied(memory: Addr -> int, d: Addr, s: Addr)
    ensures Copied(memory, memory, d, s, 0)
  {
  }

  lemma CopiedMore(m0: Addr -> int, m1: Addr -> int, m2: Addr -> int, d: Addr, s: Addr, i: nat, n: nat)
    requires Copied(m0, m1, d, s, i) && (d + i + n <= s || s + i + n <= d)
    requires Copied(m1, m2, d + i, s + i, n)
    ensures Copied(m0, m2, d, s, i + n)
  {
    forall b: Addr ensures m2(b) == m0(Source(d, s, i + n, b)) {
      var x := Source(d + i, s + i, n, b);
      assert m2(b) == m1(x) && m1(x) == m0(Source(d, s, i, x));
    }
  }

  /** Writing inside the user range of a live block keeps the heap in order. */
  lemma OwnRangeWrite(h: Heap, h': Heap, a: Addr)
    requires HeapOk(h) && Live(h, a) && h' == h.(memory := h'.memory)
    requires forall x: Addr :: !InUserRange(h, a, x) ==> h'.memory(x) == h.memory(x)
    ensures HeapOk(h')
    ensures forall b: Addr, x: Addr :: Live(h, b) && b != a && InUserRange(h, b, x) ==> h'.memory(x) == h.memory(x)
  {
    UserRangeSafe(h, a);
    forall b: Addr | Live(h, b) ensures h'.memory(NoteAt(b)) == h.memory(NoteAt(b)) {
      UserIsAligned(b);
    }
    WriteKeepsHeap(h, h');
  }

  lemma CopyIsSafe(h: Heap, a: Addr, b: Addr, n: nat)
    requires HeapOk(h) && Live(h, a) && Live(h, b) && a != b && n <= h.minors[a].reqSize && n <= h.minors[b].reqSize
    ensures User(b) + n <= User(a) || User(a) + n <= User(b)
  {
    LiveApart(h, a, b);
    UserRangeSafe(h, a);
    UserRangeSafe(h, b);
  }

  lemma CopyKeepsHeap(h: Heap, h': Heap, a: Addr, b: Addr, n: nat)
    requires HeapOk(h) && Live(h, a) && Live(h, b) && a != b && n <= h.minors[a].reqSize && n <= h.minors[b].reqSize
    requires h' == h.(memory := h'.memory) && Copied(h.memory, h'.memory, User(b), User(a), n)
    ensures HeapOk(h')
    ensures forall c :: Live(h, c) && c != b ==> SameBytes(h, h', c)
  {
    forall x: Addr | !InUserRange(h, b, x) ensures h'.memory(x) == h.memory(x) {
    }
    OwnRangeWrite(h, h', b);
  }

  /** The bytes of the block at c are the same. */
  ghost predicate SameBytes(h: Heap, h': Heap, c: Addr) {
    c in h.minors && forall x: Addr :: InUserRange(h, c, x) ==> h'.memory(x) == h.memory(x)
  }

  /** The block at b starts with the bytes of the block at a. */
  ghost predicate BytesMoved(h: Heap, h': Heap, a: Addr, b: Addr) {
    a in h.minors && forall x: Addr :: InUserRange(h, a, x) ==> h'.memory(User(b) + (x - User(a))) == h.memory(x)
  }

  /** What growing does: a is gone, b is new and has the requested size and the bytes of a, and every other live
      block keeps its size and its bytes. */
  ghost predicate Moved(h: Heap, h': Heap, a: Addr, b: Addr, size: nat) {
    Live(h, a) && !Live(h', a) && !Live(h, b) && Live(h', b) && h'.minors[b].reqSize == size &&
      BytesMoved(h, h', a, b) &&
    (forall c :: c != a && c != b ==> (Live(h', c) <==> Live(h, c))) &&
    (forall c :: Live(h, c) && c != a ==>
       Live(h', c) && h'.minors[c].reqSize == h.minors[c].reqSize && SameBytes(h, h', c))
  }

  /** A new block leaves the bytes of the others alone. */
  lemma NewBlockKeepsBytes(h: Heap, h': Heap, b: Addr, size: nat, c: Addr)
    requires HeapOk(h') && NewBlock(h, h', b, size) && Live(h, c)
    ensures SameBytes(h, h', c)
  {
    UserRangeSafe(h', c);
    forall x: Addr | InUserRange(h, c, x) ensures h'.memory(x) == h.memory(x) {
      assert InUserRange(h', c, x);
    }
  }

  lemma CopyMoves(h: Heap, h1: Heap, h2: Heap, a: Addr, b: Addr)
    requires a in h.minors && SameBytes(h, h1, a) && Copied(h1.memory, h2.memory, User(b), User(a), h.minors[a].reqSize)
    ensures BytesMoved(h, h2, a, b)
  {
    forall x: Addr | InUserRange(h, a, x) ensures h2.memory(User(b) + (x - User(a))) == h.memory(x) {
      var y: Addr := User(b) + (x - User(a));
      assert Source(User(b), User(a), h.minors[a].reqSize, y) == x;
      assert h2.memory(y) == h1.memory(x);
    }
  }

  lemma IsMoved(h: Heap, h1: Heap, h2: Heap, h': Heap, a: Addr, b: Addr, size: nat)
    requires HeapOk(h1) && Live(h, a) && NewBlock(h, h1, b, size)
    requires h2.minors == h1.minors && Copied(h1.memory, h2.memory, User(b), User(a), h.minors[a].reqSize)
    requires forall c :: Live(h1, c) && c != b ==> SameBytes(h1, h2, c)
    requires GoneBlock(h2, h', a)
    ensures Moved(h, h', a, b, size)
  {
    forall c | Live(h, c) ensures SameBytes(h, h', c) {
      NewBlockKeepsBytes(h, h1, b, size, c);
      BytesStay(h, h1, h', c);
    }
    NewBlockKeepsBytes(h, h1, b, size, a);
    CopyMoves(h, h1, h2, a, b);
  }

  lemma BytesStay(h: Heap, h1: Heap, h2: Heap, c: Addr)
    requires SameBytes(h, h1, c) && SameBytes(h1, h2, c) && h1.minors[c].reqSize == h.minors[c].reqSize
    ensures SameBytes(h, h2, c)
  {
    forall x: Addr | InUserRange(h, c, x) ensures h2.memory(x) == h.memory(x) {
      assert InUserRange(h1, c, x);
    }
  }

  /** Conversion of an unsigned int to int. */
  function ToInt(x: int): int {
    var y := x % 0x1_0000_0000;
    if y < 0x8000_0000 then y else y - 0x1_0000_0000
  }

  lemma ToIntIs(x: int)
    ensures ToInt(x) % 0x1_0000_0000 == x % 0x1_0000_0000 && -0x8000_0000 <= ToInt(x) < 0x8000_0000
  {
  }

  /** The best bet after memory was freed in the major block at maj, as the numbers compare when converted to int. */
  ghost function BetAfter(h: Heap, maj: Addr): Addr {
    if h.bestBet != NULL && ToInt(FreeOf(h, maj)) > ToInt(FreeOf(h, h.bestBet)) then maj else h.bestBet
  }

  /** What freeing the block at a does to the best bet: it is forgotten with its pages, and otherwise the major block of
      a takes its place if that has more free memory then. */
  ghost predicate BetFreed(h: Heap, h': Heap, a: Addr, freed: Addr)
    requires a in h.minors
  {
    var maj := h.minors[a].block;
    h'.bestBet == if freed != NULL then (if h.bestBet == freed then NULL else h.bestBet)
                  else BetAfter(h'.(bestBet := h.bestBet), maj)
  }

  lemma BetIsFreed(h: Heap, h1: Heap, h': Heap, k: int, j: int, freed: Addr)
    requires HeapOk(h) && 0 <= k < |h.order| && EntryOk(h, k) && 0 <= j < |h.chains[k]| && RemovedFrom(h, h1, k, j)
    requires freed == NULL ==> SameLists(h1, h') && h'.bestBet == BetAfter(h1, h.order[k])
    requires freed != NULL ==> freed == h.order[k] && Dropped(h1, h', k)
    ensures h.chains[k][j] in h.minors && BetFreed(h, h', h.chains[k][j], freed)
  {
    BlockInside(h, k, j);
  }

  /** What dropping the k-th major block relies on. */
  ghost predicate Droppable(h: Heap, k: int) {
    Listed(h) && 0 <= k < |h.order| && h.chains[k] == [] && MajorEntry(h, k) && h.memRoot == h.order[0] &&
    (forall i :: 0 <= i < |h.order| && i != k ==> h.order[i] != h.order[k]) &&
    (0 < k < |h.order| - 1 ==> h.order[k - 1] != h.order[k + 1])
  }

  lemma MayDrop(h: Heap, k: int)
    requires HeapOk(h) && 0 <= k < |h.order| && h.chains[k] == []
    ensures Droppable(h, k)
  {
    assert MajorEntry(h, k) && EntryOk(h, k);
    forall i | 0 <= i < |h.order| && i != k ensures h.order[i] != h.order[k] {
      OrderDiffers(h, i, k);
    }
    if 0 < k < |h.order| - 1 { OrderDiffers(h, k - 1, k + 1); }
  }

  /** What kfree does to the block with its header at a: the block is gone and its bytes no longer in use; the pages
      of its major block go back exactly if it was the only block there. */
  ghost predicate FreeDone(h: Heap, h': Heap, a: Addr, freed: Addr, pages: nat) {
    HeapOk(h') && GoneBlock(h, h', a) && h'.inuseBytes == h.inuseBytes - h.minors[a].size &&
    (freed != NULL <==> forall b :: Live(h, b) && b != a ==> h.minors[b].block != h.minors[a].block) &&
    SameMajors(h', h) &&
    (if freed == NULL then h'.order == h.order && h'.allocatedBytes == h.allocatedBytes
     else freed == h.minors[a].block && freed in h.majors && pages == h.majors[freed].pages &&
          h'.allocatedBytes == h.allocatedBytes - h.majors[freed].size && Listed(h') && PagesFree(h', freed, pages) &&
          OneLess(h.order, h'.order, freed))
  }

  /** The list t is s without an entry m. */
  ghost predicate OneLess(s: seq<Addr>, t: seq<Addr>, m: Addr) {
    exists k :: 0 <= k < |s| && s[k] == m && t == s[..k] + s[k + 1..]
  }

  /** What growing the block at a to `size` bytes at b does to the major blocks. Pages are added exactly if no gap has
      room, and b lies in them. The pages of the old major block go back exactly if every other live block is in another
      one and b is so, too. */
  ghost predicate MovedPages(h: Heap, h': Heap, a: Addr, b: Addr, size: nat, page: Addr, freed: Addr, pages: nat) {
    Listed(h) && Listed(h') && Live(h, a) && Live(h', b) &&
    var grown := NoRoom(h, size + 32);
    var listed := if grown then h.order + [page] else h.order;
    (freed != NULL <==> h'.minors[b].block != h.minors[a].block &&
                        forall c :: Live(h, c) && c != a ==> h.minors[c].block != h.minors[a].block) &&
    h'.minors[b].block in h'.order && (grown ==> page != NULL && h'.minors[b].block == page) &&
    (freed == NULL ==> h'.order == listed) &&
    (freed != NULL ==>
       freed == h.minors[a].block && freed in h.majors && pages == h.majors[freed].pages &&
       PagesFree(h', freed, pages) && OneLess(listed, h'.order, freed)) &&
    h'.allocatedBytes == h.allocatedBytes + (if grown then PagesFor(size + 32) * 4096 else 0)
                         - (if freed != NULL then pages * 4096 else 0) &&
    h'.inuseBytes == h.inuseBytes + (size + 32) - h.minors[a].size
  }

  lemma IsMovedPages(h: Heap, h1: Heap, h2: Heap, h': Heap, a: Addr, b: Addr, size: nat, page: Addr, freed: Addr,
                     pages: nat)
    requires HeapOk(h) && HeapOk(h') && Live(h, a) && a != b && TookGrown(h, h1, b, size + 32, size, page, false)
    requires h2 == h1.(memory := h2.memory) && FreeDone(h2, h', a, freed, pages)
    ensures MovedPages(h, h', a, b, size, page, freed, pages)
  {
    hide HeapOk, NoRoom, PagesFree, PagesFor, OneLess, SameMajors;
    HasShape(h);
    HasShape(h');
    var k, j := FindLive(h, a);
    var i, l := FindLive(h', b);
    assert h.order[k] in h.order && h'.order[i] in h'.order;
    SameMajorSize(h, h1, h.order[k]);
    SameAlone(h, h1, h2, a, b, size);
  }

  lemma SameMajorSize(h: Heap, h1: Heap, m: Addr)
    requires SameMajors(h, h1) && m in h.order
    ensures m in h.majors && m in h1.majors && h1.majors[m].pages == h.majors[m].pages &&
            h1.majors[m].size == h.majors[m].size
  {
  }

  /** The new block beside a live one. */
  lemma MallocGives(h: Heap, h': Heap, p: Addr, b: Addr, size: nat, page: Addr, a: Addr)
    requires HeapOk(h) && Live(h, a) && MallocDone(h, h', p, b, size, page) && (page != NULL || !NoRoom(h, size + 32))
    ensures p != NULL && p == User(b) && HeapOk(h') && Listed(h') && a != b && Live(h', a) && Live(h', b)
    ensures TookGrown(h, h', b, size + 32, size, page, false) && NewBlock(h, h', b, size)
    ensures h'.minors[a].reqSize == h.minors[a].reqSize && h'.minors[b].reqSize == size
  {
  }

  lemma FreeGives(h: Heap, h': Heap, a: Addr, freed: Addr, pages: nat)
    requires FreeDone(h, h', a, freed, pages)
    ensures HeapOk(h') && GoneBlock(h, h', a)
  {
  }

  /** The other live blocks after b is added are b and the other live blocks before. */
  lemma SameAlone(h: Heap, h1: Heap, h2: Heap, a: Addr, b: Addr, size: nat)
    requires Live(h, a) && a != b && NewBlock(h, h1, b, size) && h2.minors == h1.minors
    ensures Live(h2, b) && Live(h2, a) && h2.minors[a] == h1.minors[a] && h1.minors[a].block == h.minors[a].block &&
            h1.minors[a].size == h.minors[a].size
    ensures (forall c :: Live(h2, c) && c != a ==> h2.minors[c].block != h2.minors[a].block) <==>
            h2.minors[b].block != h.minors[a].block &&
            (forall c :: Live(h, c) && c != a ==> h.minors[c].block != h.minors[a].block)
  {
    if forall c :: Live(h2, c) && c != a ==> h2.minors[c].block != h2.minors[a].block {
      forall c | Live(h, c) && c != a ensures h.minors[c].block != h.minors[a].block {
        assert Live(h2, c) && h2.minors[c].block == h.minors[c].block;
      }
      assert Live(h2, b);
    } else {
      var c :| Live(h2, c) && c != a && h2.minors[c].block == h2.minors[a].block;
      assert c != b ==> Live(h, c) && SameBlock(h, h1, c);
    }
    }

  lemma OnlyBlock(h: Heap, k: int, j: int)
    requires HeapOk(h) && 0 <= k < |h.order| && EntryOk(h, k) && 0 <= j < |h.chains[k]|
    ensures Without(h.chains[k], j) == [] <==>
            forall b :: Live(h, b) && b != h.chains[k][j] ==> h.minors[b].block != h.minors[h.chains[k][j]].block
  {
    var c := h.chains[k];
    BlockInside(h, k, j);
    if |c| > 1 {
      var l := if j == 0 then 1 else 0;
      BlockInside(h, k, l);
      MayDetach(h, k, j);
      assert Live(h, c[l]) && c[l] != c[j];
    } else {
      forall b | Live(h, b) && b != c[j] ensures h.minors[b].block != h.order[k] {
        var i, l := FindLive(h, b);
        if i != k {
          assert EntryOk(h, i);
          OrderDiffers(h, i, k);
        }
      }
    }
  }

  /** The pages of a dropped major block are free afterwards. */
  lemma DroppedIsFree(h: Heap, h': Heap, k: int)
    requires HeapOk(h) && 0 <= k < |h.order| && Dropped(h, h', k) && HeapOk(h') && EntryOk(h, k)
    ensures PagesFree(h', h.order[k], h.majors[h.order[k]].pages)
  {
    forall i | 0 <= i < |h'.order|
      ensures var m := h.order[k];
              m + h.majors[m].pages * PAGE_SIZE <= h'.order[i] || h'.order[i] + h'.majors[h'.order[i]].size <= m
    {
      DropEntry(h, h', k, i);
      assert EntryOk(h, Behind(k, i));
      OrderDiffers(h, Behind(k, i), k);
    }
  }

  lemma FreeIsDone(h: Heap, h1: Heap, h': Heap, k: int, j: int, freed: Addr, pages: nat)
    requires HeapOk(h) && 0 <= k < |h.order| && EntryOk(h, k) && 0 <= j < |h.chains[k]| && RemovedFrom(h, h1, k, j)
    requires GoneBlock(h, h1, h.chains[k][j]) && HeapOk(h1) && HeapOk(h')
    requires freed != NULL <==> h1.chains[k] == []
    requires freed == NULL ==> SameLists(h1, h')
    requires freed != NULL ==> freed == h.order[k] && pages == h1.majors[freed].pages && Dropped(h1, h', k)
    ensures FreeDone(h, h', h.chains[k][j], freed, pages)
  {
    hide HeapOk, GoneBlock, PagesFree, SameMajors, OneLess;
    HasShape(h);
    HasShape(h');
    BlockInside(h, k, j);
    OnlyBlock(h, k, j);
    hide EntryOk, MajorEntry, MajorsApart, Accounted;
    SameGone(h, h1, h', h.chains[k][j]);
    RemovedMajors(h, h1, k, j);
    if freed != NULL {
      MajorGoes(h1, h', k);
    } else {
      SameMajorsListed(h1, h');
    }
    SameMajorsBack(h, h1, h');
  }

  /** Giving back a major block. */
  lemma MajorGoes(h: Heap, h': Heap, k: int)
    requires HeapOk(h) && HeapOk(h') && 0 <= k < |h.order| && Dropped(h, h', k)
    ensures PagesFree(h', h.order[k], h.majors[h.order[k]].pages)
    ensures SameMajors(h', h) && OneLess(h.order, h'.order, h.order[k]) && forall m :: m in h'.order ==> m in h.order
  {
    hide SameMajors, OneLess, Dropped;
    assert EntryOk(h, k);
    DroppedIsFree(h, h', k);
    forall i | 0 <= i < |h.order| && i != k ensures h.order[i] != h.order[k] {
      OrderDiffers(h, i, k);
    }
    DroppedMajors(h, h', k);
  }

  lemma SameGone(h: Heap, h1: Heap, h': Heap, a: Addr)
    requires GoneBlock(h, h1, a) && h'.minors == h1.minors && h'.memory == h1.memory
    ensures GoneBlock(h, h', a)
  {
  }

  lemma SameMajorsListed(h: Heap, h': Heap)
    requires Listed(h) && SameLists(h, h')
    ensures SameMajors(h', h) && forall m :: m in h'.order ==> m in h.order
  {
  }

  lemma SameMajorsBack(h: Heap, h1: Heap, h': Heap)
    requires SameMajors(h', h1) && SameMajors(h1, h) && forall m :: m in h'.order ==> m in h1.order
    ensures SameMajors(h', h)
  {
  }

  lemma RemovedMajors(h: Heap, h1: Heap, k: int, j: int)
    requires Listed(h) && 0 <= k < |h.order| && 0 <= j < |h.chains[k]| && Known(h.chains[k], h.minors)
    requires RemovedFrom(h, h1, k, j)
    ensures SameMajors(h, h1) && SameMajors(h1, h)
  {
  }

  lemma DroppedMajors(h: Heap, h': Heap, k: int)
    requires Listed(h) && 0 <= k < |h.order| && Dropped(h, h', k)
    requires forall i :: 0 <= i < |h.order| && i != k ==> h.order[i] != h.order[k]
    ensures SameMajors(h', h) && OneLess(h.order, h'.order, h.order[k]) && forall m :: m in h'.order ==> m in h.order
  {
    forall m | m in h'.order
      ensures m in h.order && m != h.order[k]
    {
      var i :| 0 <= i < |h'.order| && h'.order[i] == m;
      assert m == h.order[if i < k then i else i + 1];
    }
  }

  /** What unlinking entry j of the k-th major block relies on. */
  ghost predicate Detachable(h: Heap, k: int, j: int) {
    Listed(h) && 0 <= k < |h.order| && 0 <= j < |h.chains[k]| && Known(h.chains[k], h.minors) &&
    var c, maj := h.chains[k], h.majors[h.order[k]];
    var x := h.minors[c[j]];
    x.block == h.order[k] && maj.usage >= x.size + MINOR_HEADER && maj.first == Nth(c, 0) &&
    x.next == Nth(c, j + 1) && x.prev == Nth(c, j - 1) && NULL !in c &&
    (forall i :: 0 <= i < |c| && i != j ==> c[i] != c[j]) && (0 < j < |c| - 1 ==> c[j - 1] != c[j + 1])
  }

  lemma MayDetach(h: Heap, k: int, j: int)
    requires Listed(h) && 0 <= k < |h.order| && EntryOk(h, k) && 0 <= j < |h.chains[k]|
    ensures Detachable(h, k, j)
  {
    var m, c := h.order[k], h.chains[k];
    SizesWithout(c, j, h.minors);
    BlockInside(h, k, j);
    assert LinkedEntry(c, j, m, h.minors);
    AllDifferent(h, k);
  }

  /** No block is twice in a chain. */
  lemma AllDifferent(h: Heap, k: int)
    requires Listed(h) && 0 <= k < |h.order| && EntryOk(h, k)
    ensures var c := h.chains[k]; NULL !in c && forall i, j :: 0 <= i < |c| && 0 <= j < |c| && i != j ==> c[i] != c[j]
  {
    var m, c := h.order[k], h.chains[k];
    forall i | 0 <= i < |c| ensures c[i] != NULL {
      BlockInside(h, k, i);
    }
    forall i, j | 0 <= i < |c| && 0 <= j < |c| && i != j ensures c[i] != c[j] {
      Different(c, m + MAJOR_HEADER, m + h.majors[m].size, h.minors, i, j);
    }
  }

  lemma EmptyMajor(h: Heap, h': Heap, page: Addr, size: nat)
    requires HeapOk(h) && h.order == [] && page != NULL && Appended(h, h', page, PagesFor(size))
    ensures Roomy(h', 0, size) && h'.order == [page] && h'.bestBet == NULL
  {
  }

  /** What kmalloc promises. It fails exactly if no gap has room for the block and no pages can be had; it asks for
      pages only if no gap has room. */
  ghost predicate MallocDone(h: Heap, h': Heap, p: Addr, a: Addr, reqSize: nat, page: Addr) {
    var size := reqSize + 32;
    Listed(h) && HeapOk(h') && (p == NULL <==> page == NULL && NoRoom(h, size)) &&
    (p == NULL ==> SameLists(h, h')) &&
    (p != NULL ==> p == User(a) && TookGrown(h, h', a, size, reqSize, page, false))
  }

  /** The search has come to the k-th major block of h, which is at maj; it started in h0. `grown`: new pages were
      added, and this is their major block. Unless it started in the middle, all major blocks before this one are
      full. */
  ghost predicate Searching(h0: Heap, h: Heap, k: int, maj: Addr, startedBet: bool, grown: bool, grown0: bool,
                            size: nat, page: Addr) {
    HeapOk(h) && Listed(h0) && 0 <= k < |h.order| && h.order[k] == maj &&
    (grown ==> Roomy(h, k, size)) &&
    (grown == grown0 ==> SameLists(h0, h)) &&
    (!grown ==> !grown0 && PageSource(h, page, size)) &&
    (!grown && !startedBet ==> forall i :: 0 <= i < k ==> Full(h, i, size)) &&
    (grown && !grown0 ==> page != NULL && Grown(h0, h, page, size))
  }

  /** The major blocks from lo up to hi have no room. */
  ghost predicate FullFrom(h: Heap, lo: int, hi: int, size: nat)
    requires Listed(h)
  {
    forall i :: 0 <= lo <= i < hi && i < |h.order| ==> Full(h, i, size)
  }

  /** What a search that started with the k0-th major block, which is the best bet if `bet`, has passed when it comes to
      the k-th one: those from the best bet on, and after the last one, all from the first on. */
  ghost predicate Passed(h: Heap, k0: int, bet: bool, k: int, startedBet: bool, size: nat)
    requires Listed(h)
  {
    if startedBet then bet && k0 <= k && FullFrom(h, k0, k, size)
    else FullFrom(h, 0, k, size) && (bet ==> FullFrom(h, k0, |h.order|, size))
  }

  /** The block is put into the first gap on the way of the search that has room, or into new pages if none has. */
  ghost predicate Chosen(h: Heap, k0: int, bet: bool, a: Addr, size: nat, page: Addr, best: Addr)
    requires Listed(h)
  {
    if NoRoom(h, size) then a == page + 40 && (best == page || BetOfAll(h, best))
    else exists k, startedBet :: 0 <= k < |h.order| && Passed(h, k0, bet, k, startedBet, size) &&
                                 FirstGap(h, k, a, size) && BetSoFar(h, k0, bet, k + 1, startedBet, best)
  }

  /** The free memory of the major block at m, and none if there is no such block. */
  ghost function FreeOf(h: Heap, m: Addr): int {
    if m != NULL && m in h.majors then h.majors[m].size - h.majors[m].usage else 0
  }

  /** No major block from lo up to hi has more free memory than the one at best. */
  ghost predicate RoomiestFrom(h: Heap, lo: int, hi: int, best: Addr) {
    forall i :: 0 <= lo <= i < hi && i < |h.order| ==> FreeOf(h, h.order[i]) <= FreeOf(h, best)
  }

  /** The best bet is the one before, or a major block with more free memory. */
  ghost predicate BetterBet(h: Heap, best: Addr) {
    best == h.bestBet || (best in h.order && FreeOf(h, best) > FreeOf(h, h.bestBet))
  }

  /** The best bet when the search has looked at the major blocks before the k-th one on its way. */
  ghost predicate BetSoFar(h: Heap, k0: int, bet: bool, k: int, startedBet: bool, best: Addr) {
    BetterBet(h, best) &&
    if startedBet then RoomiestFrom(h, k0, k, best)
    else RoomiestFrom(h, 0, k, best) && (bet ==> RoomiestFrom(h, k0, |h.order|, best))
  }

  ghost predicate BetOfAll(h: Heap, best: Addr) {
    BetterBet(h, best) && RoomiestFrom(h, 0, |h.order|, best)
  }

  /** Where kmalloc puts a block of `size` bytes: the search starts with the best bet, if that has more free memory than
      the block and its header need, and else with the first major block. */
  ghost predicate WellPlaced(h: Heap, a: Addr, size: nat, page: Addr, best: Addr)
    requires Listed(h)
  {
    var bet := h.bestBet != NULL && FreeOf(h, h.bestBet) > size + 40;
    exists k0 :: (if bet then 0 <= k0 < |h.order| && h.order[k0] == h.bestBet else k0 == 0) &&
                 Chosen(h, k0, bet, a, size, page, best)
  }

  lemma StartIsOnTheWay(h: Heap, k0: int, bet: bool, maj: Addr, grown: bool, size: nat, page: Addr, bestSize: nat)
    requires HeapOk(h) && 0 <= k0 < |h.order| && h.order[k0] == maj && (!bet ==> k0 == 0)
    requires bestSize == FreeOf(h, h.bestBet)
    requires if grown then !bet && Roomy(h, 0, size) else PageSource(h, page, size)
    ensures OnTheWay(h, h, k0, bet, k0, maj, bet, grown, grown, size, page, bestSize)
  {
  }

  lemma FailedIsFailed(h: Heap, h': Heap, size: nat)
    requires SearchFailed(h, h', size)
    ensures SameLists(h, h') && Listed(h) && NoRoom(h, size) && BetOfAll(h, h'.bestBet)
  {
  }

  lemma IsMallocDone(h: Heap, h1: Heap, h': Heap, grown: bool, p: Addr, a: Addr, reqSize: nat, page: Addr)
    requires HeapOk(h) && p != NULL && p == User(a) && TookGrown(h1, h', a, reqSize + 32, reqSize, page, grown)
    requires if grown then h.order == [] && page != NULL && Appended(h, h1, page, PagesFor(reqSize + 32)) &&
                           h1.order == [page]
             else h1 == h
    ensures MallocDone(h, h', p, a, reqSize, page)
  {
  }

  /** The first pages of a heap. */
  lemma FirstPages(h: Heap, h1: Heap, a: Addr, size: nat, page: Addr, best: Addr)
    requires HeapOk(h) && h.order == [] && page != NULL && Appended(h, h1, page, PagesFor(size))
    requires HeapOk(h1) && Chosen(h1, 0, false, a, size, page, best)
    ensures Chosen(h, 0, false, a, size, page, best)
  {
    EmptyMajor(h, h1, page, size);
    if !NoRoom(h1, size) {
      var k, startedBet :| 0 <= k < |h1.order| && Passed(h1, 0, false, k, startedBet, size) &&
                           FirstGap(h1, k, a, size) && BetSoFar(h1, 0, false, k + 1, startedBet, best);
      RoomyGap(h1, k, a, size);
      assert h1.order[0] == page && FreeOf(h1, page) > 0;
    } else {
      RoomyHasGap(h1, 0, size);
    }
  }

  lemma RoomyHasGap(h: Heap, k: int, size: nat)
    requires HeapOk(h) && Roomy(h, k, size)
    ensures !NoRoom(h, size)
  {
    assert EntryOk(h, k);
    EmptyChain(h, k);
    assert GapFits(h, k, 0, size);
    assert !Full(h, k, size);
  }

  /** A search that started with the k0-th major block of h0 comes to the k-th one of h. */
  ghost predicate OnTheWay(h0: Heap, h: Heap, k0: int, bet0: bool, k: int, maj: Addr, startedBet: bool, grown: bool,
                           grown0: bool, size: nat, page: Addr, bestSize: nat) {
    Searching(h0, h, k, maj, startedBet, grown, grown0, size, page) &&
    Started(k0, bet0, k, startedBet, grown, grown0) &&
    (!grown ==> Passed(h0, k0, bet0, k, startedBet, size)) &&
    if grown && !grown0 then BetOfAll(h0, h.bestBet)
    else bestSize == FreeOf(h0, h.bestBet) && BetSoFar(h0, k0, bet0, k, startedBet, h.bestBet)
  }

  /** It has compared that one with the best bet. */
  ghost predicate Looked(h0: Heap, h: Heap, k0: int, bet0: bool, k: int, maj: Addr, startedBet: bool, grown: bool,
                         grown0: bool, size: nat, page: Addr, bestSize: nat) {
    Searching(h0, h, k, maj, startedBet, grown, grown0, size, page) &&
    Started(k0, bet0, k, startedBet, grown, grown0) &&
    (!grown ==> Passed(h0, k0, bet0, k, startedBet, size)) &&
    if grown && !grown0 then h.bestBet == page || BetOfAll(h0, h.bestBet)
    else bestSize == FreeOf(h0, h.bestBet) && BetSoFar(h0, k0, bet0, k + 1, startedBet, h.bestBet)
  }

  predicate Started(k0: int, bet0: bool, k: int, startedBet: bool, grown: bool, grown0: bool) {
    (grown0 ==> !bet0) && (!bet0 ==> k0 == 0) && (startedBet ==> bet0) && (grown && grown0 ==> k == 0 && !startedBet)
  }

  /** No gap has room, and nothing but the best bet has changed. */
  ghost predicate SearchFailed(h: Heap, h': Heap, size: nat) {
    SameLists(h, h') && Listed(h) && NoRoom(h, size) && BetOfAll(h, h'.bestBet)
  }

  /** Looking at the k-th major block. */
  lemma BetLooked(h0: Heap, h: Heap, h': Heap, k0: int, bet: bool, k: int, startedBet: bool, bestSize: nat)
    requires Listed(h0) && SameLists(h0, h) && SameLists(h, h') && 0 <= k < |h0.order|
    requires BetSoFar(h0, k0, bet, k, startedBet, h.bestBet)
    requires var m, size := h0.order[k], FreeOf(h0, h.bestBet);
             (h'.bestBet == if size < FreeOf(h0, m) then m else h.bestBet) &&
             bestSize == if size < FreeOf(h0, m) then FreeOf(h0, m) else size
    ensures bestSize == FreeOf(h0, h'.bestBet) && BetSoFar(h0, k0, bet, k + 1, startedBet, h'.bestBet)
  {
  }

  /** After the last major block the search goes on with the first one, or has looked at all. */
  lemma BetPassed(h: Heap, k0: int, bet: bool, k: int, startedBet: bool, best: Addr)
    requires BetSoFar(h, k0, bet, k + 1, startedBet, best) && (startedBet ==> bet)
    ensures startedBet && k == |h.order| - 1 ==> BetSoFar(h, k0, bet, 0, false, best)
    ensures !startedBet && k == |h.order| - 1 ==> BetOfAll(h, best)
  {
  }

  /** Past a full major block, to the next one or from the last one to the first. */
  lemma PassedOn(h0: Heap, h: Heap, k0: int, bet: bool, k: int, startedBet: bool, size: nat)
    requires Listed(h0) && SameLists(h0, h) && 0 <= k < |h0.order| && Full(h, k, size)
    requires Passed(h0, k0, bet, k, startedBet, size)
    ensures Passed(h0, k0, bet, k + 1, startedBet, size)
    ensures startedBet && k == |h0.order| - 1 ==> Passed(h0, k0, bet, 0, false, size)
  {
    SameFull(h, h0, k, size);
  }

  lemma FoundIsChosen(h0: Heap, h: Heap, k0: int, bet: bool, k: int, maj: Addr, startedBet: bool, grown: bool,
                      grown0: bool, size: nat, page: Addr, a: Addr, best: Addr)
    requires Searching(h0, h, k, maj, startedBet, grown, grown0, size, page) && FirstGap(h, k, a, size)
    requires grown0 ==> !bet && k0 == 0
    requires !grown ==> Passed(h0, k0, bet, k, startedBet, size)
    requires grown && grown0 ==> k == 0 && !startedBet
    requires (grown ==> grown0) ==> BetSoFar(h0, k0, bet, k + 1, startedBet, best)
    requires grown && !grown0 ==> best == page || BetOfAll(h0, best)
    ensures Chosen(h0, k0, bet, a, size, page, best)
  {
    if grown && !grown0 {
      RoomyGap(h, k, a, size);
    } else {
      SameGap(h, h0, k, a, size);
      assert Passed(h0, k0, bet, k, startedBet, size);
    }
  }

  lemma RoomyGap(h: Heap, k: int, a: Addr, size: nat)
    requires HeapOk(h) && Roomy(h, k, size) && FirstGap(h, k, a, size)
    ensures a == h.order[k] + 40
  {
    assert EntryOk(h, k);
    EmptyChain(h, k);
  }

  lemma SameGap(h: Heap, h': Heap, k: int, a: Addr, size: nat)
    requires Listed(h) && 0 <= k < |h.order| && FirstGap(h, k, a, size) && SameLists(h, h')
    ensures FirstGap(h', k, a, size) && !NoRoom(h', size)
  {
    var j :| 0 <= j <= |h.chains[k]| && GapFits(h, k, j, size) &&
             a == GapStart(h.chains[k], j, h.order[k] + MAJOR_HEADER, h.minors) &&
             forall i :: 0 <= i < j ==> !GapFits(h, k, i, size);
    assert GapFits(h', k, j, size);
    forall i | 0 <= i < j ensures !GapFits(h', k, i, size) {
      assert !GapFits(h, k, i, size);
    }
    assert !Full(h', k, size);
  }

  lemma BetKeepsSearching(h0: Heap, h: Heap, h': Heap, k: int, maj: Addr, startedBet: bool, grown: bool, grown0: bool,
                          size: nat, page: Addr)
    requires Searching(h0, h, k, maj, startedBet, grown, grown0, size, page) && HeapOk(h') && SameLists(h, h')
    ensures Searching(h0, h', k, maj, startedBet, grown, grown0, size, page)
  {
    if !grown && !startedBet {
      forall i | 0 <= i < k ensures Full(h', i, size) {
        SameFull(h, h', i, size);
      }
    }
  }

  lemma FoundInSearch(h0: Heap, h: Heap, h': Heap, k: int, maj: Addr, startedBet: bool, grown: bool, grown0: bool,
                      size: nat, reqSize: nat, page: Addr, a: Addr)
    requires Searching(h0, h, k, maj, startedBet, grown, grown0, size, page)
    requires Took(h, h', maj, a, size, reqSize) && FirstGap(h, k, a, size)
    ensures TookGrown(h0, h', a, size, reqSize, page, grown0)
  {
    if !grown && NoRoom(h0, size) {
      SameFull(h0, h, k, size);
    }
  }

  /** Only the best bet differs. */
  ghost predicate SameLists(h: Heap, h': Heap) {
    h' == h.(bestBet := h'.bestBet)
  }

  /** The k-th major block is the last one and empty, and has room for `size` bytes. */
  ghost predicate Roomy(h: Heap, k: int, size: nat) {
    Listed(h) && 0 <= k == |h.order| - 1 && h.majors[h.order[k]].first == NULL &&
    h.majors[h.order[k]].usage == MAJOR_HEADER && h.majors[h.order[k]].size >= MAJOR_HEADER + MINOR_HEADER + size
  }

  lemma SameFull(h: Heap, h': Heap, k: int, size: nat)
    requires Listed(h) && 0 <= k < |h.order| && Full(h, k, size) && SameLists(h, h')
    ensures Full(h', k, size)
  {
    forall j | 0 <= j <= |h.chains[k]| ensures !GapFits(h', k, j, size) {
      assert !GapFits(h, k, j, size);
    }
  }

  lemma SameNoRoom(h: Heap, h': Heap, size: nat)
    requires Listed(h) && NoRoom(h, size) && SameLists(h, h')
    ensures NoRoom(h', size)
  {
    forall k | 0 <= k < |h.order| ensures Full(h', k, size) {
      SameFull(h, h', k, size);
    }
  }

  /** One block is taken, after pages were added if none of the gaps had room. */
  ghost predicate TookGrown(h: Heap, h': Heap, a: Addr, size: nat, reqSize: nat, page: Addr, grown0: bool) {
    HeapOk(h') && NewBlock(h, h', a, reqSize) && h'.minors[a].size == size && h'.inuseBytes == h.inuseBytes + size &&
    SameMajors(h, h') &&
    if grown0 || (Listed(h) && !NoRoom(h, size)) then
      h'.allocatedBytes == h.allocatedBytes && h'.order == h.order && h'.minors[a].block in h.order
    else
      page != NULL && h'.allocatedBytes == h.allocatedBytes + PagesFor(size) * PAGE_SIZE &&
      h'.order == h.order + [page] && h'.minors[a].block == page && page in h'.majors &&
      h'.majors[page].pages == PagesFor(size)
  }

  /** No gap had room, so pages were added; the blocks are the same. */
  ghost predicate Grown(h: Heap, h': Heap, page: Addr, size: nat) {
    Listed(h) && NoRoom(h, size) && h'.minors == h.minors && h'.memory == h.memory && h'.inuseBytes == h.inuseBytes &&
    h'.allocatedBytes == h.allocatedBytes + PagesFor(size) * PAGE_SIZE && h'.order == h.order + [page] &&
    SameMajors(h, h') && page in h'.majors && h'.majors[page].pages == PagesFor(size)
  }

  /** A block without a successor is the last one. */
  lemma LastBlock(h: Heap, k: int, l: int)
    requires Listed(h) && 0 <= k < |h.order| && EntryOk(h, k) && 0 <= l < |h.chains[k]| &&
             h.minors[h.chains[k][l]].next == NULL
    ensures l == |h.chains[k]| - 1
  {
    assert LinkedEntry(h.chains[k], l, h.order[k], h.minors);
    if l + 1 < |h.chains[k]| { BlockInside(h, k, l + 1); }
  }

  lemma BlockFacts(h: Heap, k: int)
    requires Listed(h) && 0 <= k < |h.order| && EntryOk(h, k)
    ensures var m := h.order[k];
            h.majors[m].usage <= h.majors[m].size && m != NULL && h.majors[m].size < m + h.majors[m].size
  {
    UsageFits(h.order[k], h.majors[h.order[k]], h.chains[k], h.minors, h.memory);
  }

  lemma Rewritten<V>(m: map<Addr, V>, a: Addr, v: V, w: V)
    ensures m[a := v][a := w] == m[a := w]
  {
  }

  lemma TwoKeys<V>(m: map<Addr, V>, a: Addr, b: Addr, v: V, w: V, v': V)
    requires a != b
    ensures m[b := v][a := w][b := v'] == m[a := w][b := v']
  {
  }

  lemma Spliced(c: seq<Addr>, j: nat, a: Addr, x: Minor, minors: Minors, minors': Minors)
    requires Known(c, minors) && 0 < j < |c| && c[j - 1] != c[j] && a != c[j - 1] && a != c[j]
    requires x.prev == c[j - 1] && x.next == c[j]
    requires minors' == minors[a := x][c[j] := minors[c[j]].(prev := a)][c[j - 1] := minors[c[j - 1]].(next := a)]
    ensures InsertedAt(c, j, a, x, minors, minors')
  {
  }

  lemma BetweenFacts(h: Heap, k: int, l: int)
    requires Listed(h) && 0 <= k < |h.order| && EntryOk(h, k) && 0 <= l < |h.chains[k]| - 1
    ensures var c := h.chains[k];
            c[l] in h.minors && c[l + 1] in h.minors && h.minors[c[l]].next == c[l + 1] &&
              End(h.minors, c[l]) <= c[l + 1] && c[l] != c[l + 1]
  {
    assert LinkedEntry(h.chains[k], l, h.order[k], h.minors);
    BeforeNext(h.chains[k], h.order[k] + MAJOR_HEADER, h.order[k] + h.majors[h.order[k]].size, h.minors, l, l + 1);
    assert End(h.minors, h.chains[k][l]) <= h.chains[k][l + 1];
  }

  lemma EmptyChain(h: Heap, k: int)
    requires Listed(h) && 0 <= k < |h.order| && EntryOk(h, k) && h.majors[h.order[k]].first == NULL
    ensures h.chains[k] == [] && h.majors[h.order[k]].usage == MAJOR_HEADER
  {
    if h.chains[k] != [] { BlockInside(h, k, 0); }
  }

  /** A block that is not put in front leaves the first block the first. */
  lemma SameFirst(h: Heap, k: int, j: int, a: Addr)
    requires Listed(h) && 0 <= k < |h.order| && EntryOk(h, k) && 0 < j <= |h.chains[k]|
    ensures var maj := h.majors[h.order[k]]; maj == maj.(first := Nth(Insert(h.chains[k], j, a), 0))
    ensures var maj := h.majors[h.order[k]];
            h.majors == h.majors[h.order[k] := maj.(first := Nth(Insert(h.chains[k], j, a), 0))]
  {
  }
}
