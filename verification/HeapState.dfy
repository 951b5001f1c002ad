/** The whole kernel heap: the list of major blocks, its counters, and how the operations keep it in order
    (kernel/mem/kmalloc.c). */
module HeapState {
  import opened HeapShape

  /** The variables of the allocator, and as ghosts the lists that the links spell out. */
  datatype Heap = Heap(
    majors: map<Addr, Major>, minors: Minors, memory: Addr -> int,
    memRoot: Addr, bestBet: Addr, inuseBytes: int, allocatedBytes: int,
    order: seq<Addr>, chains: seq<seq<Addr>>)

  // ---------- sums ----------

  ghost function Sum(s: seq<nat>): nat {
    if s == [] then 0 else Sum(s[..|s| - 1]) + s[|s| - 1]
  }

  lemma {:induction false} SumSplit(s: seq<nat>, t: seq<nat>)
    ensures Sum(s + t) == Sum(s) + Sum(t)
    decreases |t|
  {
    if t == [] {
      assert s + t == s;
    } else {
      var n := |t| - 1;
      assert (s + t)[..|s + t| - 1] == s + t[..n];
      SumSplit(s, t[..n]);
    }
  }

  lemma SumOne(x: nat)
    ensures Sum([x]) == x
  {
    assert [x][..0] == [];
  }

  lemma SumAt(s: seq<nat>, k: nat)
    requires k < |s|
    ensures Sum(s) == Sum(s[..k]) + s[k] + Sum(s[k + 1..])
  {
    assert s == s[..k] + [s[k]] + s[k + 1..];
    SumSplit(s[..k] + [s[k]], s[k + 1..]);
    SumSplit(s[..k], [s[k]]);
    SumOne(s[k]);
  }

  lemma SumUpdate(s: seq<nat>, k: nat, v: nat)
    requires k < |s|
    ensures Sum(s[k := v]) == Sum(s) - s[k] + v
  {
    SumAt(s, k);
    SumAt(s[k := v], k);
    assert s[k := v][..k] == s[..k] && s[k := v][k + 1..] == s[k + 1..];
  }

  lemma SumRemove(s: seq<nat>, k: nat)
    requires k < |s|
    ensures Sum(s[..k] + s[k + 1..]) == Sum(s) - s[k]
  {
    SumAt(s, k);
    SumSplit(s[..k], s[k + 1..]);
  }

  // ---------- the invariant ----------

  ghost predicate Listed(h: Heap) {
    |h.chains| == |h.order| && forall i :: 0 <= i < |h.order| ==> h.order[i] in h.majors && h.order[i] != NULL
  }

  ghost predicate MajorEntry(h: Heap, i: int)
    requires 0 <= i < |h.order| && h.order[i] in h.majors
  {
    h.majors[h.order[i]].next == Nth(h.order, i + 1) && h.majors[h.order[i]].prev == Nth(h.order, i - 1)
  }

  ghost predicate EntryOk(h: Heap, i: int)
    requires 0 <= i < |h.order| && |h.chains| == |h.order| && h.order[i] in h.majors
  {
    MajorOk(h.order[i], h.majors[h.order[i]], h.chains[i], h.minors, h.memory)
  }

  /** The pages of two major blocks do not overlap. */
  ghost predicate MajorsApart(h: Heap, i: int, j: int)
    requires Listed(h) && 0 <= i < |h.order| && 0 <= j < |h.order|
  {
    var a, b := h.order[i], h.order[j];
    a + h.majors[a].size <= b || b + h.majors[b].size <= a
  }

  /** The header at a belongs to the i-th major block and is in its chain. */
  ghost predicate Home(h: Heap, a: Addr, i: int)
    requires |h.chains| == |h.order| && a in h.minors
  {
    0 <= i < |h.order| && h.order[i] == h.minors[a].block && a in h.chains[i]
  }

  /** Every header that carries the magic number is in the chain of its block. */
  ghost predicate Accounted(h: Heap)
    requires |h.chains| == |h.order|
  {
    forall a :: a in h.minors && h.minors[a].magic == MAGIC ==> exists i :: Home(h, a, i)
  }

  ghost predicate Shaped(h: Heap) {
    Listed(h) &&
    (forall i :: 0 <= i < |h.order| ==> MajorEntry(h, i)) &&
    (forall i :: 0 <= i < |h.order| ==> EntryOk(h, i)) &&
    (forall i, j :: 0 <= i < j < |h.order| ==> MajorsApart(h, i, j)) &&
    Accounted(h)
  }

  ghost function InUse(h: Heap): (s: seq<nat>)
    requires |h.chains| == |h.order| && forall i :: 0 <= i < |h.chains| ==> Known(h.chains[i], h.minors)
  {
    seq(|h.chains|, i requires 0 <= i < |h.chains| => Sizes(h.chains[i], h.minors))
  }

  ghost function Allocated(h: Heap): (s: seq<nat>)
    requires Listed(h)
  {
    seq(|h.order|, i requires 0 <= i < |h.order| => h.majors[h.order[i]].size)
  }

  lemma ChainsKnown(h: Heap)
    requires Shaped(h)
    ensures forall i :: 0 <= i < |h.chains| ==> Known(h.chains[i], h.minors)
  {
    forall i | 0 <= i < |h.chains| ensures Known(h.chains[i], h.minors) {
      assert EntryOk(h, i);
    }
  }

  /** The invariant of the allocator. */
  ghost predicate HeapOk(h: Heap) {
    Shaped(h) &&
    h.memRoot == Nth(h.order, 0) && (h.bestBet == NULL || h.bestBet in h.order) &&
    (ChainsKnown(h); h.inuseBytes == Sum(InUse(h))) && h.allocatedBytes == Sum(Allocated(h))
  }

  // ---------- consequences ----------

  /** A block lies inside the pages of its major block, after that block's header. */
  lemma BlockInside(h: Heap, i: int, l: int)
    requires Listed(h) && 0 <= i < |h.order| && EntryOk(h, i) && 0 <= l < |h.chains[i]|
    ensures var m, a := h.order[i], h.chains[i][l];
            a in h.minors && m + MAJOR_HEADER <= a && End(h.minors, a) <= m + h.majors[m].size &&
            h.minors[a].size >= ALIGNMENT + ALIGN_INFO && h.minors[a].block == m && h.minors[a].magic == MAGIC
  {
    var m, c := h.order[i], h.chains[i];
    assert NotedBlock(c[l], h.minors, h.memory) && LinkedEntry(c, l, m, h.minors);
  }

  /** Major blocks at different places of the list are different. */
  lemma OrderDiffers(h: Heap, i: int, j: int)
    requires Listed(h) && 0 <= i < |h.order| && 0 <= j < |h.order| && i != j && EntryOk(h, i) && EntryOk(h, j)
    requires forall i, j :: 0 <= i < j < |h.order| ==> MajorsApart(h, i, j)
    ensures h.order[i] != h.order[j]
    ensures var a, b := h.order[i], h.order[j]; a + h.majors[a].size <= b || b + h.majors[b].size <= a
  {
    if i < j { assert MajorsApart(h, i, j); } else { assert MajorsApart(h, j, i); }
  }

  /** A range inside one major block does not touch the blocks of another. */
  lemma OtherMajor(h: Heap, k: int, i: int, l: int, a: Addr, size: nat)
    requires Shaped(h) && 0 <= k < |h.order| && 0 <= i < |h.order| && i != k && 0 <= l < |h.chains[i]|
    requires h.order[k] + MAJOR_HEADER <= a && a + MINOR_HEADER + size <= h.order[k] + h.majors[h.order[k]].size
    requires size >= ALIGNMENT + ALIGN_INFO
    ensures var b := h.chains[i][l];
            b in h.minors && b != a && NoteAt(b) != NoteAt(a) &&
            (a + MINOR_HEADER + size <= b || End(h.minors, b) <= a)
  {
    assert EntryOk(h, i) && EntryOk(h, k);
    OrderDiffers(h, i, k);
    BlockInside(h, i, l);
    NotesApart(h.chains[i][l], h.minors[h.chains[i][l]].size, a, size);
  }

  // ---------- a block is inserted ----------

  /** A block with header x is linked in at address a, before entry j of the k-th major block. */
  ghost predicate InsertedInto(h: Heap, h': Heap, k: int, j: int, a: Addr, x: Minor)
    requires Listed(h) && 0 <= k < |h.order| && 0 <= j <= |h.chains[k]| && Known(h.chains[k], h.minors)
  {
    var m, c := h.order[k], h.chains[k];
    var maj := h.majors[m];
    InsertedAt(c, j, a, x, h.minors, h'.minors) && NoteWritten(a, h.memory, h'.memory) &&
    h'.majors == h.majors[m := maj.(usage := maj.usage + x.size + MINOR_HEADER, first := Nth(Insert(c, j, a), 0))] &&
    h'.order == h.order && h'.chains == h.chains[k := Insert(c, j, a)] &&
    h'.memRoot == h.memRoot && h'.bestBet == h.bestBet &&
    h'.inuseBytes == h.inuseBytes + x.size && h'.allocatedBytes == h.allocatedBytes
  }

  /** The gap before entry j of the k-th major block has room for a block at a. */
  ghost predicate FitsGap(h: Heap, k: int, j: int, a: Addr, size: nat)
    requires Listed(h) && 0 <= k < |h.order| && 0 <= j <= |h.chains[k]| && Known(h.chains[k], h.minors)
  {
    var m := h.order[k];
    GapStart(h.chains[k], j, m + MAJOR_HEADER, h.minors) <= a &&
    a + MINOR_HEADER + size <= GapEnd(h.chains[k], j, m + h.majors[m].size)
  }

  /** Inserting does not touch the blocks of other major blocks. */
  lemma InsertElsewhere(h: Heap, h': Heap, k: int, j: int, a: Addr, x: Minor, i: int)
    requires Shaped(h) && 0 <= k < |h.order| && 0 <= j <= |h.chains[k]| && EntryOk(h, k)
    requires FitsGap(h, k, j, a, x.size) && x.size >= ALIGNMENT + ALIGN_INFO && InsertedInto(h, h', k, j, a, x)
    requires 0 <= i < |h.order| && i != k
    ensures h'.order[i] in h'.majors && EntryOk(h', i)
    ensures EntryOk(h, i) && Sizes(h'.chains[i], h'.minors) == Sizes(h.chains[i], h.minors)
  {
    var m, c := h.order[k], h.chains[k];
    assert EntryOk(h, i);
    OrderDiffers(h, i, k);
    GapInside(h, k, j, a, x.size);
    forall l | 0 <= l < |h.chains[i]|
      ensures var b := h.chains[i][l];
              b in h'.minors && h'.minors[b] == h.minors[b] && h'.memory(NoteAt(b)) == h.memory(NoteAt(b))
    {
      OtherMajor(h, k, i, l, a, x.size);
      if 0 < j {
        BlockInside(h, k, j - 1);
        OtherMajor(h, k, i, l, c[j - 1], h.minors[c[j - 1]].size);
      }
      if j < |c| {
        BlockInside(h, k, j);
        OtherMajor(h, k, i, l, c[j], h.minors[c[j]].size);
      }
    }
    MajorFrame(h.order[i], h.majors[h.order[i]], h.chains[i], h.minors, h.memory, h'.minors, h'.memory);
  }

  lemma GapInside(h: Heap, k: int, j: int, a: Addr, size: nat)
    requires Listed(h) && 0 <= k < |h.order| && EntryOk(h, k) && 0 <= j <= |h.chains[k]| && FitsGap(h, k, j, a, size)
    ensures h.order[k] + MAJOR_HEADER <= a && a + MINOR_HEADER + size <= h.order[k] + h.majors[h.order[k]].size
  {
    if 0 < j { BlockInside(h, k, j - 1); }
    if j < |h.chains[k]| { BlockInside(h, k, j); }
  }

  lemma InsertAccounts(h: Heap, h': Heap, k: int, j: int, a: Addr, x: Minor)
    requires Shaped(h) && 0 <= k < |h.order| && 0 <= j <= |h.chains[k]| && EntryOk(h, k)
    requires x.block == h.order[k] && x.magic == MAGIC && InsertedInto(h, h', k, j, a, x)
    ensures Accounted(h')
  {
    var c := h.chains[k];
    forall b | b in h'.minors && h'.minors[b].magic == MAGIC ensures exists i :: Home(h', b, i) {
      if b == a {
        assert Insert(c, j, a)[j] == a;
        assert Home(h', a, k);
      } else {
        assert h.minors[b].magic == MAGIC && h.minors[b].block == h'.minors[b].block;
        var i :| Home(h, b, i);
        if i == k { InsertHas(c, j, a, b); }
        assert Home(h', b, i);
      }
    }
  }

  lemma InsertHas(c: seq<Addr>, j: nat, a: Addr, b: Addr)
    requires j <= |c| && b in c
    ensures b in Insert(c, j, a)
  {
    var l :| 0 <= l < |c| && c[l] == b;
    assert Insert(c, j, a)[if l < j then l else l + 1] == b;
  }

  lemma RemoveHas(c: seq<Addr>, j: nat, b: Addr)
    requires j < |c| && b in c && b != c[j]
    ensures b in Without(c, j)
  {
    var l :| 0 <= l < |c| && c[l] == b;
    assert Without(c, j)[if l < j then l else l - 1] == b;
  }

  lemma InsertEntry(h: Heap, h': Heap, k: int, j: int, a: Addr, x: Minor, i: int)
    requires Shaped(h) && 0 <= k < |h.order| && 0 <= j <= |h.chains[k]| && EntryOk(h, k)
    requires FitsGap(h, k, j, a, x.size) && InsertedInto(h, h', k, j, a, x)
    requires x.block == h.order[k] && x.magic == MAGIC && x.reqSize + ALIGNMENT + ALIGN_INFO <= x.size
    requires 0 <= i < |h.order|
    ensures EntryOk(h, i) && h'.order[i] in h'.majors && MajorEntry(h', i) && EntryOk(h', i)
    ensures Sizes(h'.chains[i], h'.minors) == Sizes(h.chains[i], h.minors) + (if i == k then x.size else 0)
    ensures h'.majors[h'.order[i]].size == h.majors[h.order[i]].size
  {
    assert MajorEntry(h, i);
    if i == k {
      var m, c := h.order[k], h.chains[k];
      InsertKeepsMajor(m, h.majors[m], c, j, a, x, h.minors, h.memory, h'.minors, h'.memory, h'.majors[m]);
    } else {
      InsertElsewhere(h, h', k, j, a, x, i);
      OrderDiffers(h, i, k);
    }
  }

  /** Inserting a block into a gap keeps the heap in order. */
  lemma InsertKeepsHeap(h: Heap, h': Heap, k: int, j: int, a: Addr, x: Minor)
    requires HeapOk(h) && 0 <= k < |h.order| && 0 <= j <= |h.chains[k]| && EntryOk(h, k)
    requires FitsGap(h, k, j, a, x.size) && InsertedInto(h, h', k, j, a, x)
    requires x.block == h.order[k] && x.magic == MAGIC && x.reqSize + ALIGNMENT + ALIGN_INFO <= x.size
    ensures HeapOk(h')
  {
    forall i | 0 <= i < |h.order|
      ensures EntryOk(h, i) && h'.order[i] in h'.majors && MajorEntry(h', i) && EntryOk(h', i)
      ensures Sizes(h'.chains[i], h'.minors) == Sizes(h.chains[i], h.minors) + (if i == k then x.size else 0)
      ensures h'.majors[h'.order[i]].size == h.majors[h.order[i]].size
    {
      InsertEntry(h, h', k, j, a, x, i);
    }
    InsertAccounts(h, h', k, j, a, x);
    SameMajorsApart(h, h');
    SumsAfter(h, h', k, Sizes(h.chains[k], h.minors) + x.size);
  }

  lemma SameMajorsApart(h: Heap, h': Heap)
    requires Shaped(h) && Listed(h') && h'.order == h.order
    requires forall i :: 0 <= i < |h.order| ==> h'.majors[h'.order[i]].size == h.majors[h.order[i]].size
    ensures forall i, l :: 0 <= i < l < |h'.order| ==> MajorsApart(h', i, l)
  {
    forall i, l | 0 <= i < l < |h'.order| ensures MajorsApart(h', i, l) {
      assert MajorsApart(h, i, l);
    }
  }

  /** The counters when only the blocks of the k-th major block change. */
  lemma SumsAfter(h: Heap, h': Heap, k: int, v: nat)
    requires Shaped(h) && Shaped(h') && h'.order == h.order && 0 <= k < |h.order|
    requires forall i :: 0 <= i < |h.order| ==>
               EntryOk(h, i) && EntryOk(h', i) &&
               Sizes(h'.chains[i], h'.minors) == if i == k then v else Sizes(h.chains[i], h.minors)
    requires forall i :: 0 <= i < |h.order| ==> h'.majors[h'.order[i]].size == h.majors[h.order[i]].size
    ensures (ChainsKnown(h); ChainsKnown(h'); Sum(InUse(h')) == Sum(InUse(h)) - Sizes(h.chains[k], h.minors) + v)
    ensures Sum(Allocated(h')) == Sum(Allocated(h))
  {
    ChainsKnown(h);
    ChainsKnown(h');
    SumUpdate(InUse(h), k, v);
    assert InUse(h') == InUse(h)[k := v];
    assert Allocated(h') == Allocated(h);
  }

  // ---------- a block is removed ----------

  /** Entry j of the k-th major block is unlinked. */
  ghost predicate RemovedFrom(h: Heap, h': Heap, k: int, j: int)
    requires Listed(h) && 0 <= k < |h.order| && 0 <= j < |h.chains[k]| && Known(h.chains[k], h.minors)
  {
    var m, c := h.order[k], h.chains[k];
    var maj, size := h.majors[m], h.minors[c[j]].size;
    RemovedAt(c, j, h.minors, h'.minors) && h'.memory == h.memory && maj.usage >= size + MINOR_HEADER &&
    h'.majors == h.majors[m := maj.(usage := maj.usage - (size + MINOR_HEADER), first := Nth(Without(c, j), 0))] &&
    h'.order == h.order && h'.chains == h.chains[k := Without(c, j)] &&
    h'.memRoot == h.memRoot && h'.bestBet == h.bestBet &&
    h'.inuseBytes == h.inuseBytes - size && h'.allocatedBytes == h.allocatedBytes
  }

  lemma RemoveElsewhere(h: Heap, h': Heap, k: int, j: int, i: int)
    requires Shaped(h) && 0 <= k < |h.order| && 0 <= j < |h.chains[k]| && EntryOk(h, k) && RemovedFrom(h, h', k, j)
    requires 0 <= i < |h.order| && i != k
    ensures h'.order[i] in h'.majors && EntryOk(h', i)
    ensures EntryOk(h, i) && Sizes(h'.chains[i], h'.minors) == Sizes(h.chains[i], h.minors)
  {
    var c := h.chains[k];
    assert EntryOk(h, i);
    OrderDiffers(h, i, k);
    forall l | 0 <= l < |h.chains[i]|
      ensures var b := h.chains[i][l]; b in h'.minors && h'.minors[b] == h.minors[b]
    {
      BlockInside(h, k, j);
      OtherMajor(h, k, i, l, c[j], h.minors[c[j]].size);
      if 0 < j {
        BlockInside(h, k, j - 1);
        OtherMajor(h, k, i, l, c[j - 1], h.minors[c[j - 1]].size);
      }
      if j + 1 < |c| {
        BlockInside(h, k, j + 1);
        OtherMajor(h, k, i, l, c[j + 1], h.minors[c[j + 1]].size);
      }
    }
    MajorFrame(h.order[i], h.majors[h.order[i]], h.chains[i], h.minors, h.memory, h'.minors, h'.memory);
  }

  lemma RemoveAccounts(h: Heap, h': Heap, k: int, j: int)
    requires Shaped(h) && 0 <= k < |h.order| && 0 <= j < |h.chains[k]| && EntryOk(h, k) && RemovedFrom(h, h', k, j)
    ensures Accounted(h')
  {
    var c := h.chains[k];
    forall b | b in h'.minors && h'.minors[b].magic == MAGIC ensures exists i :: Home(h', b, i) {
      assert b != c[j] && h.minors[b].magic == MAGIC && h.minors[b].block == h'.minors[b].block;
      var i :| Home(h, b, i);
      if i == k { RemoveHas(c, j, b); }
      assert Home(h', b, i);
    }
  }

  lemma RemoveEntry(h: Heap, h': Heap, k: int, j: int, i: int)
    requires Shaped(h) && 0 <= k < |h.order| && 0 <= j < |h.chains[k]| && EntryOk(h, k) && RemovedFrom(h, h', k, j)
    requires 0 <= i < |h.order|
    ensures EntryOk(h, i) && h'.order[i] in h'.majors && MajorEntry(h', i) && EntryOk(h', i)
    ensures Sizes(h'.chains[i], h'.minors) + (if i == k then h.minors[h.chains[k][j]].size else 0) ==
            Sizes(h.chains[i], h.minors)
    ensures h'.majors[h'.order[i]].size == h.majors[h.order[i]].size
  {
    assert MajorEntry(h, i);
    if i == k {
      var m, c := h.order[k], h.chains[k];
      RemoveKeepsMajor(m, h.majors[m], c, j, h.minors, h.memory, h'.minors, h'.majors[m]);
    } else {
      RemoveElsewhere(h, h', k, j, i);
      OrderDiffers(h, i, k);
    }
  }

  /** Removing a block keeps the heap in order. */
  lemma RemoveKeepsHeap(h: Heap, h': Heap, k: int, j: int)
    requires HeapOk(h) && 0 <= k < |h.order| && 0 <= j < |h.chains[k]| && EntryOk(h, k) && RemovedFrom(h, h', k, j)
    ensures HeapOk(h')
  {
    var size := h.minors[h.chains[k][j]].size;
    forall i | 0 <= i < |h.order|
      ensures EntryOk(h, i) && h'.order[i] in h'.majors && MajorEntry(h', i) && EntryOk(h', i)
      ensures Sizes(h'.chains[i], h'.minors) + (if i == k then size else 0) == Sizes(h.chains[i], h.minors)
      ensures h'.majors[h'.order[i]].size == h.majors[h.order[i]].size
    {
      RemoveEntry(h, h', k, j, i);
    }
    RemoveAccounts(h, h', k, j);
    SameMajorsApart(h, h');
    SumsAfter(h, h', k, Sizes(h'.chains[k], h'.minors));
  }

  // ---------- a major block is appended ----------

  /** An empty major block of `pages` pages at m becomes the last of the list. */
  ghost predicate Appended(h: Heap, h': Heap, m: Addr, pages: nat)
    requires Listed(h)
  {
    var n := |h.order|;
    var newMajor := Major(Nth(h.order, n - 1), NULL, pages, pages * PAGE_SIZE, MAJOR_HEADER, NULL);
    h'.majors == (if n == 0 then h.majors
                  else h.majors[h.order[n - 1] := h.majors[h.order[n - 1]].(next := m)])[m := newMajor] &&
    h'.minors == h.minors && h'.memory == h.memory && h'.order == h.order + [m] && h'.chains == h.chains + [[]] &&
    h'.memRoot == (if n == 0 then m else h.memRoot) && h'.bestBet == h.bestBet &&
    h'.inuseBytes == h.inuseBytes && h'.allocatedBytes == h.allocatedBytes + pages * PAGE_SIZE
  }

  /** The pages from m on are not those of any listed major block. */
  ghost predicate PagesFree(h: Heap, m: Addr, pages: nat)
    requires Listed(h)
  {
    forall i :: 0 <= i < |h.order| ==>
      m + pages * PAGE_SIZE <= h.order[i] || h.order[i] + h.majors[h.order[i]].size <= m
  }

  lemma AppendEntry(h: Heap, h': Heap, m: Addr, pages: nat, i: int)
    requires Shaped(h) && m != NULL && pages > 0 && PagesFree(h, m, pages) && Appended(h, h', m, pages)
    requires 0 <= i < |h'.order|
    ensures h'.order[i] in h'.majors && h'.order[i] != NULL && MajorEntry(h', i) && EntryOk(h', i)
    ensures h'.majors[h'.order[i]].size == if i < |h.order| then h.majors[h.order[i]].size else pages * PAGE_SIZE
  {
    var n := |h.order|;
    if i == n {
      assert h'.order[i] == m;
    } else {
      assert MajorEntry(h, i) && EntryOk(h, i);
      HasHeader(h, i);
      assert h.order[i] != m;
      if i != n - 1 {
        assert EntryOk(h, n - 1);
        OrderDiffers(h, i, n - 1);
      }
    }
  }

  lemma HasHeader(h: Heap, i: int)
    requires Listed(h) && 0 <= i < |h.order| && EntryOk(h, i)
    ensures h.majors[h.order[i]].size >= MAJOR_HEADER
  {
  }

  lemma AppendShaped(h: Heap, h': Heap, m: Addr, pages: nat)
    requires Shaped(h) && m != NULL && pages > 0 && PagesFree(h, m, pages) && Appended(h, h', m, pages)
    ensures Shaped(h')
    ensures forall i :: 0 <= i < |h.order| ==> h'.majors[h'.order[i]].size == h.majors[h.order[i]].size
    ensures h'.majors[m].size == pages * PAGE_SIZE
  {
    var n := |h.order|;
    forall i | 0 <= i < |h'.order|
      ensures h'.order[i] in h'.majors && h'.order[i] != NULL && MajorEntry(h', i) && EntryOk(h', i)
      ensures h'.majors[h'.order[i]].size == if i < n then h.majors[h.order[i]].size else pages * PAGE_SIZE
    {
      AppendEntry(h, h', m, pages, i);
    }
    AppendApart(h, h', m, pages);
    AppendAccounts(h, h', m, pages);
  }

  lemma AppendApart(h: Heap, h': Heap, m: Addr, pages: nat)
    requires Shaped(h) && PagesFree(h, m, pages) && Appended(h, h', m, pages) && Listed(h')
    requires forall i :: 0 <= i < |h'.order| ==>
               h'.majors[h'.order[i]].size == if i < |h.order| then h.majors[h.order[i]].size else pages * PAGE_SIZE
    ensures forall i, l :: 0 <= i < l < |h'.order| ==> MajorsApart(h', i, l)
  {
    forall i, l | 0 <= i < l < |h'.order| ensures MajorsApart(h', i, l) {
      if l < |h.order| { assert MajorsApart(h, i, l); }
    }
  }

  lemma AppendAccounts(h: Heap, h': Heap, m: Addr, pages: nat)
    requires Listed(h) && Accounted(h) && Appended(h, h', m, pages)
    ensures Accounted(h')
  {
    forall b | b in h'.minors && h'.minors[b].magic == MAGIC ensures exists i :: Home(h', b, i) {
      var i :| Home(h, b, i);
      assert Home(h', b, i);
    }
  }

  /** Appending a major block keeps the heap in order. */
  lemma AppendKeepsHeap(h: Heap, h': Heap, m: Addr, pages: nat)
    requires HeapOk(h) && m != NULL && pages > 0 && PagesFree(h, m, pages) && Appended(h, h', m, pages)
    ensures HeapOk(h')
  {
    AppendShaped(h, h', m, pages);
    AppendSums(h, h', m, pages);
    if h.bestBet != NULL {
      var i :| 0 <= i < |h.order| && h.order[i] == h.bestBet;
      assert h'.order[i] == h'.bestBet;
    }
  }

  lemma AppendSums(h: Heap, h': Heap, m: Addr, pages: nat)
    requires Shaped(h) && Shaped(h') && Appended(h, h', m, pages)
    requires forall i :: 0 <= i < |h.order| ==> h'.majors[h'.order[i]].size == h.majors[h.order[i]].size
    requires h'.majors[m].size == pages * PAGE_SIZE
    ensures (ChainsKnown(h); ChainsKnown(h'); Sum(InUse(h')) == Sum(InUse(h)))
    ensures Sum(Allocated(h')) == Sum(Allocated(h)) + pages * PAGE_SIZE
  {
    ChainsKnown(h);
    ChainsKnown(h');
    assert InUse(h') == InUse(h) + [0];
    SumSplit(InUse(h), [0]);
    SumOne(0);
    assert Allocated(h') == Allocated(h) + [pages * PAGE_SIZE];
    SumSplit(Allocated(h), [pages * PAGE_SIZE]);
    SumOne(pages * PAGE_SIZE);
  }

  // ---------- an empty major block is dropped ----------

  /** The k-th major block, which has no blocks, is unlinked. */
  ghost predicate Dropped(h: Heap, h': Heap, k: int)
    requires Listed(h) && 0 <= k < |h.order|
  {
    var m := h.order[k];
    h.chains[k] == [] && h'.majors.Keys == h.majors.Keys &&
    (forall b :: b in h.majors && b != m ==>
       h'.majors[b] == if 0 < k && b == h.order[k - 1] then h.majors[b].(next := Nth(h.order, k + 1))
                       else if k + 1 < |h.order| && b == h.order[k + 1] then h.majors[b].(prev := Nth(h.order, k - 1))
                       else h.majors[b]) &&
    h'.minors == h.minors && h'.memory == h.memory && h'.order == Without(h.order, k) &&
      h'.chains == Without(h.chains, k) &&
    h'.memRoot == (if k == 0 then Nth(h.order, 1) else h.memRoot) &&
    h'.bestBet == (if h.bestBet == m then NULL else h.bestBet) &&
    h'.inuseBytes == h.inuseBytes && h'.allocatedBytes == h.allocatedBytes - h.majors[m].size
  }

  /** Entry i of a list is entry Behind(k, i) of the list before its k-th entry was taken out. */
  function Behind(k: int, i: int): int {
    if i < k then i else i + 1
  }

  lemma DropHeader(h: Heap, h': Heap, k: int, i0: int)
    requires Shaped(h) && 0 <= k < |h.order| && Dropped(h, h', k) && 0 <= i0 < |h.order| && i0 != k
    ensures h.order[i0] in h'.majors && h.order[i0] != h.order[k] && MajorEntry(h, i0)
    ensures h'.majors[h.order[i0]] == h.majors[h.order[i0]].(
              next := if i0 + 1 == k then Nth(h.order, k + 1) else h.majors[h.order[i0]].next,
              prev := if i0 == k + 1 then Nth(h.order, k - 1) else h.majors[h.order[i0]].prev)
  {
    OrderDiffers(h, i0, k);
    if 0 < k && i0 != k - 1 {
      OrderDiffers(h, i0, k - 1);
    }
    if k + 1 < |h.order| && i0 != k + 1 {
      OrderDiffers(h, i0, k + 1);
    }
  }

  lemma DropEntry(h: Heap, h': Heap, k: int, i: int)
    requires Shaped(h) && 0 <= k < |h.order| && Dropped(h, h', k) && 0 <= i < |h'.order|
    ensures h'.order[i] == h.order[Behind(k, i)] && h'.chains[i] == h.chains[Behind(k, i)]
    ensures h'.order[i] in h'.majors && h'.order[i] != NULL && MajorEntry(h', i) && EntryOk(h', i)
    ensures h'.majors[h'.order[i]].size == h.majors[h'.order[i]].size
  {
    var i0 := Behind(k, i);
    DropHeader(h, h', k, i0);
    assert h'.order[i] == h.order[i0] && EntryOk(h, i0);
  }

  lemma DropShaped(h: Heap, h': Heap, k: int)
    requires Shaped(h) && 0 <= k < |h.order| && Dropped(h, h', k)
    ensures Shaped(h')
    ensures forall i :: 0 <= i < |h'.order| ==> h'.majors[h'.order[i]].size == h.majors[h.order[Behind(k, i)]].size
  {
    forall i | 0 <= i < |h'.order|
      ensures h'.order[i] in h'.majors && h'.order[i] != NULL && MajorEntry(h', i) && EntryOk(h', i)
      ensures h'.majors[h'.order[i]].size == h.majors[h.order[Behind(k, i)]].size
    {
      DropEntry(h, h', k, i);
    }
    DropApart(h, h', k);
    DropAccounts(h, h', k);
  }

  lemma DropApart(h: Heap, h': Heap, k: int)
    requires Shaped(h) && 0 <= k < |h.order| && Dropped(h, h', k) && Listed(h')
    requires forall i :: 0 <= i < |h'.order| ==> h'.majors[h'.order[i]].size == h.majors[h.order[Behind(k, i)]].size
    ensures forall i, l :: 0 <= i < l < |h'.order| ==> MajorsApart(h', i, l)
  {
    forall i, l | 0 <= i < l < |h'.order| ensures MajorsApart(h', i, l) {
      assert MajorsApart(h, Behind(k, i), Behind(k, l));
    }
  }

  lemma DropAccounts(h: Heap, h': Heap, k: int)
    requires Listed(h) && Accounted(h) && 0 <= k < |h.order| && Dropped(h, h', k)
    ensures Accounted(h')
  {
    forall b | b in h'.minors && h'.minors[b].magic == MAGIC ensures exists i :: Home(h', b, i) {
      var i :| Home(h, b, i);
      assert i != k;
      assert Home(h', b, if i < k then i else i - 1);
    }
  }

  /** Dropping an empty major block keeps the heap in order. */
  lemma DropKeepsHeap(h: Heap, h': Heap, k: int)
    requires HeapOk(h) && 0 <= k < |h.order| && Dropped(h, h', k)
    ensures HeapOk(h')
  {
    DropShaped(h, h', k);
    DropSums(h, h', k);
    DropBet(h, h', k);
    assert MajorEntry(h, k);
  }

  /** The best bet is not the block that is dropped. */
  lemma DropBet(h: Heap, h': Heap, k: int)
    requires Listed(h) && 0 <= k < |h.order| && Dropped(h, h', k) && (h.bestBet == NULL || h.bestBet in h.order)
    ensures h'.bestBet == NULL || h'.bestBet in h'.order
  {
    if h'.bestBet != NULL {
      var i :| 0 <= i < |h.order| && h.order[i] == h.bestBet;
      assert h'.order[if i < k then i else i - 1] == h'.bestBet;
    }
  }

  lemma DropSums(h: Heap, h': Heap, k: int)
    requires Shaped(h) && Shaped(h') && 0 <= k < |h.order| && Dropped(h, h', k)
    requires forall i :: 0 <= i < |h'.order| ==> h'.majors[h'.order[i]].size == h.majors[h.order[Behind(k, i)]].size
    ensures (ChainsKnown(h); ChainsKnown(h'); Sum(InUse(h')) == Sum(InUse(h)))
    ensures Sum(Allocated(h')) == Sum(Allocated(h)) - h.majors[h.order[k]].size
  {
    ChainsKnown(h);
    ChainsKnown(h');
    assert InUse(h') == InUse(h)[..k] + InUse(h)[k + 1..];
    SumRemove(InUse(h), k);
    assert Sizes(h.chains[k], h.minors) == 0;
    DropAllocated(h, h', k);
  }

  lemma DropAllocated(h: Heap, h': Heap, k: int)
    requires Listed(h) && Listed(h') && 0 <= k < |h.order| && |h'.order| == |h.order| - 1
    requires forall i :: 0 <= i < |h'.order| ==> h'.majors[h'.order[i]].size == h.majors[h.order[Behind(k, i)]].size
    ensures Sum(Allocated(h')) == Sum(Allocated(h)) - h.majors[h.order[k]].size
  {
    assert Allocated(h') == Allocated(h)[..k] + Allocated(h)[k + 1..];
    SumRemove(Allocated(h), k);
  }

  // ---------- a request shrinks, the user writes ----------

  /** The counters when no chain changes its size. */
  lemma SameSums(h: Heap, h': Heap)
    requires Shaped(h) && Shaped(h') && h'.order == h.order && h'.majors == h.majors
    requires forall i :: 0 <= i < |h.order| ==>
               EntryOk(h, i) && EntryOk(h', i) && Sizes(h'.chains[i], h'.minors) == Sizes(h.chains[i], h.minors)
    ensures (ChainsKnown(h); ChainsKnown(h'); Sum(InUse(h')) == Sum(InUse(h)))
    ensures Sum(Allocated(h')) == Sum(Allocated(h))
  {
    ChainsKnown(h);
    ChainsKnown(h');
    assert InUse(h') == InUse(h);
    assert Allocated(h') == Allocated(h);
  }

  lemma SameHomes(h: Heap, h': Heap)
    requires Listed(h) && Accounted(h) && h'.order == h.order && h'.chains == h.chains &&
             h'.minors.Keys == h.minors.Keys
    requires forall b :: b in h.minors ==>
               h'.minors[b].magic == h.minors[b].magic && h'.minors[b].block == h.minors[b].block
    ensures Accounted(h')
  {
    forall b | b in h'.minors && h'.minors[b].magic == MAGIC ensures exists i :: Home(h', b, i) {
      var i :| Home(h, b, i);
      assert Home(h', b, i);
    }
  }

  /** krealloc's shrinking: only the requested size of a block changes. */
  lemma ShrinkKeepsHeap(h: Heap, h': Heap, a: Addr, size: nat)
    requires HeapOk(h) && a in h.minors && h.minors[a].reqSize >= size
    requires h' == h.(minors := h.minors[a := h.minors[a].(reqSize := size)])
    ensures HeapOk(h')
  {
    forall i | 0 <= i < |h.order|
      ensures EntryOk(h, i) && MajorEntry(h', i) && EntryOk(h', i) &&
              Sizes(h'.chains[i], h'.minors) == Sizes(h.chains[i], h.minors)
    {
      ShrinkEntry(h, h', a, size, i);
    }
    SameHomes(h, h');
    SameMajorsApart(h, h');
    SameSums(h, h');
  }

  lemma ShrinkEntry(h: Heap, h': Heap, a: Addr, size: nat, i: int)
    requires Shaped(h) && a in h.minors && h.minors[a].reqSize >= size && 0 <= i < |h.order|
    requires h' == h.(minors := h.minors[a := h.minors[a].(reqSize := size)])
    ensures EntryOk(h, i) && MajorEntry(h', i) && EntryOk(h', i) &&
            Sizes(h'.chains[i], h'.minors) == Sizes(h.chains[i], h.minors)
  {
    assert MajorEntry(h, i) && EntryOk(h, i);
    var m, c := h.order[i], h.chains[i];
    SizesFrame(c, h.minors, h'.minors);
    forall j | 0 <= j < |c| ensures LinkedEntry(c, j, m, h'.minors) && NotedBlock(c[j], h'.minors, h'.memory) {
      assert LinkedEntry(c, j, m, h.minors) && NotedBlock(c[j], h.minors, h.memory);
    }
  }

  /** Memory may change anywhere but at the notes. */
  lemma WriteKeepsHeap(h: Heap, h': Heap)
    requires HeapOk(h) && h' == h.(memory := h'.memory)
    requires forall a :: a in h.minors && h.minors[a].magic == MAGIC ==> h'.memory(NoteAt(a)) == h.memory(NoteAt(a))
    ensures HeapOk(h')
  {
    forall i | 0 <= i < |h.order|
      ensures EntryOk(h, i) && MajorEntry(h', i) && EntryOk(h', i) &&
              Sizes(h'.chains[i], h'.minors) == Sizes(h.chains[i], h.minors)
    {
      assert MajorEntry(h, i) && EntryOk(h, i);
      forall l | 0 <= l < |h.chains[i]| ensures h.chains[i][l] in h.minors && h.minors[h.chains[i][l]].magic == MAGIC {
        BlockInside(h, i, l);
      }
      MajorFrame(h.order[i], h.majors[h.order[i]], h.chains[i], h.minors, h.memory, h'.minors, h'.memory);
    }
    SameHomes(h, h');
    SameMajorsApart(h, h');
    SameSums(h, h');
  }

  // ---------- user ranges ----------

  /** The block at a is in use. */
  predicate Live(h: Heap, a: Addr) {
    a in h.minors && h.minors[a].magic == MAGIC
  }

  /** The bytes the user may use. */
  predicate InUserRange(h: Heap, a: Addr, b: Addr)
    requires a in h.minors
  {
    User(a) <= b < User(a) + h.minors[a].reqSize
  }

  /** A live block is somewhere in the lists. */
  lemma FindLive(h: Heap, a: Addr) returns (k: int, j: int)
    requires Shaped(h) && Live(h, a)
    ensures 0 <= k < |h.order| && EntryOk(h, k) && 0 <= j < |h.chains[k]| && h.chains[k][j] == a &&
            h.order[k] == h.minors[a].block
  {
    k :| Home(h, a, k);
    assert EntryOk(h, k);
    j :| 0 <= j < |h.chains[k]| && h.chains[k][j] == a;
  }

  /** Different live blocks, headers included, do not overlap. */
  lemma LiveApart(h: Heap, a: Addr, b: Addr)
    requires Shaped(h) && Live(h, a) && Live(h, b) && a != b
    ensures End(h.minors, a) <= b || End(h.minors, b) <= a
  {
    var k, j := FindLive(h, a);
    var i, l := FindLive(h, b);
    BlockInside(h, k, j);
    if i == k {
      var c := h.chains[k];
      if j < l { assert End(h.minors, c[j]) <= c[l]; } else { assert End(h.minors, c[l]) <= c[j]; }
    } else {
      OtherMajor(h, k, i, l, a, h.minors[a].size);
    }
  }

  /** A live user range is 16-aligned, inside its block behind the header and the note, inside the pages of its
      major block, and apart from every other live block, its note and its header. */
  lemma UserRangeSafe(h: Heap, a: Addr)
    requires HeapOk(h) && Live(h, a)
    ensures User(a) % 16 == 0
    ensures a + MINOR_HEADER <= NoteAt(a) < User(a) && User(a) + h.minors[a].reqSize <= End(h.minors, a)
    ensures exists i :: 0 <= i < |h.order| && h.order[i] == h.minors[a].block &&
                        h.order[i] + MAJOR_HEADER <= a && End(h.minors, a) <= h.order[i] + h.majors[h.order[i]].size
    ensures forall b: Addr, x: Addr :: Live(h, b) && b != a && InUserRange(h, a, x) ==>
              !(b <= x < End(h.minors, b)) && !InUserRange(h, b, x) && x != NoteAt(b)
  {
    UserIsAligned(a);
    var k, j := FindLive(h, a);
    BlockInside(h, k, j);
    assert NotedBlock(a, h.minors, h.memory);
    assert h.order[k] == h.minors[a].block;
    forall b: Addr, x: Addr | Live(h, b) && b != a && InUserRange(h, a, x)
      ensures !(b <= x < End(h.minors, b)) && !InUserRange(h, b, x) && x != NoteAt(b)
    {
      LiveApart(h, a, b);
      UserIsAligned(b);
      var i, l := FindLive(h, b);
      assert NotedBlock(h.chains[i][l], h.minors, h.memory);
    }
  }
}
