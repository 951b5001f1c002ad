/** The shape of the kernel heap: major blocks of pages, each with a sorted list of minor blocks
    (kernel/mem/kmalloc.c). Headers are records kept at addresses; links are addresses. */
module HeapShape {

  type Addr = nat

  const NULL: Addr := 0
  const PAGE_SIZE := 4096
  const PAGE_COUNT := 1
  /** sizeof( struct liballoc_major ) and sizeof( struct liballoc_minor ) on x86-64. */
  const MAJOR_HEADER := 40
  const MINOR_HEADER := 40
  const ALIGNMENT := 16
  const ALIGN_INFO := 16
  const MAGIC := 0xc001_c0de
  const DEAD := 0xdead_dead

  datatype Major = Major(prev: Addr, next: Addr, pages: nat, size: nat, usage: nat, first: Addr)

  datatype Minor = Minor(prev: Addr, next: Addr, block: Addr, magic: nat, size: nat, reqSize: nat)

  type Minors = map<Addr, Minor>

  // ---------- the pointer handed to the user ----------

  /** What ALIGN adds to a pointer beyond ALIGN_INFO. */
  function Padding(p: Addr): nat {
    var diff := (p + ALIGN_INFO) % ALIGNMENT;
    if diff == 0 then 0 else ALIGNMENT - diff
  }

  /** The user's pointer into the minor block at a. */
  function User(a: Addr): Addr {
    a + MINOR_HEADER + ALIGN_INFO + Padding(a + MINOR_HEADER)
  }

  /** Where ALIGN notes how far it moved the pointer, and what it notes. */
  function NoteAt(a: Addr): Addr {
    User(a) - ALIGN_INFO
  }

  function Note(a: Addr): nat {
    User(a) - (a + MINOR_HEADER)
  }

  /** The user's pointer is aligned, and the room added for alignment suffices for the note and the padding. */
  lemma UserIsAligned(a: Addr)
    ensures User(a) % ALIGNMENT == 0
    ensures User(a) % 16 == 0 && a + 56 <= User(a) < a + 72
    ensures a + MINOR_HEADER <= NoteAt(a) < User(a) < a + MINOR_HEADER + ALIGNMENT + ALIGN_INFO
    ensures ALIGN_INFO <= Note(a) < ALIGNMENT + ALIGN_INFO
  {
  }

  // ---------- one major block ----------

  /** Entry i of a list, or NULL beyond its ends. */
  function Nth(c: seq<Addr>, i: int): Addr {
    if 0 <= i < |c| then c[i] else NULL
  }

  function End(minors: Minors, a: Addr): Addr
    requires a in minors
  {
    a + MINOR_HEADER + minors[a].size
  }

  ghost predicate Known(c: seq<Addr>, minors: Minors) {
    forall j :: 0 <= j < |c| ==> c[j] in minors
  }

  /** Entry j is linked to its neighbours in both directions and belongs to the major block m. */
  ghost predicate LinkedEntry(c: seq<Addr>, j: int, m: Addr, minors: Minors)
    requires 0 <= j < |c| && c[j] in minors
  {
    var x := minors[c[j]];
    x.block == m && x.magic == MAGIC && x.next == Nth(c, j + 1) && x.prev == Nth(c, j - 1)
  }

  ghost predicate Linked(c: seq<Addr>, m: Addr, minors: Minors)
    requires Known(c, minors)
  {
    forall j :: 0 <= j < |c| ==> LinkedEntry(c, j, m, minors)
  }

  /** The blocks of the chain lie in [lo, hi), in order and without overlap. */
  ghost predicate Placed(c: seq<Addr>, lo: Addr, hi: Addr, minors: Minors)
    requires Known(c, minors)
  {
    lo <= hi &&
    (forall j :: 0 <= j < |c| ==> lo <= c[j] && End(minors, c[j]) <= hi) &&
    (forall i, j :: 0 <= i < j < |c| ==> End(minors, c[i]) <= c[j])
  }

  /** The block at a has room for what was requested and for alignment, and notes how its pointer was aligned. */
  ghost predicate NotedBlock(a: Addr, minors: Minors, memory: Addr -> int)
    requires a in minors
  {
    minors[a].reqSize + ALIGNMENT + ALIGN_INFO <= minors[a].size && memory(NoteAt(a)) == Note(a)
  }

  ghost predicate Noted(c: seq<Addr>, minors: Minors, memory: Addr -> int)
    requires Known(c, minors)
  {
    forall j :: 0 <= j < |c| ==> NotedBlock(c[j], minors, memory)
  }

  /** Bytes taken by the blocks of a chain, without and with their headers. */
  ghost function Sizes(c: seq<Addr>, minors: Minors): nat
    requires Known(c, minors)
  {
    if c == [] then 0 else Sizes(c[..|c| - 1], minors) + minors[c[|c| - 1]].size
  }

  ghost function Taken(c: seq<Addr>, minors: Minors): nat
    requires Known(c, minors)
  {
    Sizes(c, minors) + MINOR_HEADER * |c|
  }

  /** A major block at m with the blocks of c. */
  ghost predicate MajorOk(m: Addr, maj: Major, c: seq<Addr>, minors: Minors, memory: Addr -> int) {
    Known(c, minors) && Linked(c, m, minors) && Noted(c, minors, memory) &&
    Placed(c, m + MAJOR_HEADER, m + maj.size, minors) &&
    maj.first == Nth(c, 0) && maj.size == maj.pages * PAGE_SIZE && maj.usage == MAJOR_HEADER + Taken(c, minors)
  }

  lemma {:induction false} SizesAppend(a: seq<Addr>, b: seq<Addr>, minors: Minors)
    requires Known(a, minors) && Known(b, minors)
    ensures Known(a + b, minors) && Sizes(a + b, minors) == Sizes(a, minors) + Sizes(b, minors)
    decreases |b|
  {
    if b == [] {
      assert a + b == a;
    } else {
      var n := |b| - 1;
      assert (a + b)[..|a + b| - 1] == a + b[..n];
      SizesAppend(a, b[..n], minors);
    }
  }

  lemma SizesOne(a: Addr, minors: Minors)
    requires a in minors
    ensures Sizes([a], minors) == minors[a].size
  {
    assert [a][..0] == [];
  }

  lemma {:induction false} SizesFrame(c: seq<Addr>, minors: Minors, minors': Minors)
    requires Known(c, minors) && Known(c, minors')
    requires forall j :: 0 <= j < |c| ==> minors[c[j]].size == minors'[c[j]].size
    ensures Sizes(c, minors) == Sizes(c, minors')
  {
    if c != [] {
      SizesFrame(c[..|c| - 1], minors, minors');
    }
  }

  /** The blocks of a chain fit the space they lie in. */
  lemma {:induction false} TakenFits(c: seq<Addr>, lo: Addr, hi: Addr, minors: Minors)
    requires Known(c, minors) && Placed(c, lo, hi, minors)
    ensures lo + Taken(c, minors) <= hi
    decreases |c|
  {
    if c != [] {
      var n := |c| - 1;
      TakenFits(c[..n], lo, c[n], minors);
    }
  }

  /** A major block never uses more than it has. */
  lemma UsageFits(m: Addr, maj: Major, c: seq<Addr>, minors: Minors, memory: Addr -> int)
    requires MajorOk(m, maj, c, minors, memory)
    ensures maj.usage <= maj.size
  {
    TakenFits(c, m + MAJOR_HEADER, m + maj.size, minors);
  }

  /** Entries of a chain are different addresses. */
  lemma Different(c: seq<Addr>, lo: Addr, hi: Addr, minors: Minors, i: int, j: int)
    requires Known(c, minors) && Placed(c, lo, hi, minors) && 0 <= i < |c| && 0 <= j < |c| && i != j
    ensures c[i] != c[j]
  {
    if i < j {
      BeforeNext(c, lo, hi, minors, i, j);
    } else {
      BeforeNext(c, lo, hi, minors, j, i);
    }
  }

  lemma BeforeNext(c: seq<Addr>, lo: Addr, hi: Addr, minors: Minors, k: nat, l: nat)
    requires Known(c, minors) && Placed(c, lo, hi, minors) && k < l < |c|
    ensures c[k] + MINOR_HEADER <= c[l]
  {
    assert End(minors, c[k]) <= c[l];
  }

  lemma ChainFrame(m: Addr, c: seq<Addr>, minors: Minors, memory: Addr -> int, minors': Minors, memory': Addr -> int)
    requires Known(c, minors) && Linked(c, m, minors) && Noted(c, minors, memory)
    requires forall j :: 0 <= j < |c| ==>
               c[j] in minors' && minors'[c[j]] == minors[c[j]] && memory'(NoteAt(c[j])) == memory(NoteAt(c[j]))
    ensures Known(c, minors') && Linked(c, m, minors') && Noted(c, minors', memory')
  {
    forall j | 0 <= j < |c| ensures LinkedEntry(c, j, m, minors') && NotedBlock(c[j], minors', memory') {
      assert LinkedEntry(c, j, m, minors) && NotedBlock(c[j], minors, memory);
    }
  }

  /** A major block does not depend on headers and notes that are not its own. */
  lemma MajorFrame(m: Addr, maj: Major, c: seq<Addr>, minors: Minors, memory: Addr -> int, minors': Minors,
                   memory': Addr -> int)
    requires MajorOk(m, maj, c, minors, memory)
    requires forall j :: 0 <= j < |c| ==>
               c[j] in minors' && minors'[c[j]] == minors[c[j]] && memory'(NoteAt(c[j])) == memory(NoteAt(c[j]))
    ensures MajorOk(m, maj, c, minors', memory') && Sizes(c, minors') == Sizes(c, minors)
  {
    SizesFrame(c, minors, minors');
    ChainFrame(m, c, minors, memory, minors', memory');
  }

  // ---------- inserting a block ----------

  function Insert(c: seq<Addr>, j: nat, a: Addr): (r: seq<Addr>)
    requires j <= |c|
    ensures |r| == |c| + 1 &&
            forall k :: 0 <= k < |r| ==> r[k] == if k < j then c[k] else if k == j then a else c[k - 1]
  {
    c[..j] + [a] + c[j..]
  }

  function Without<T>(s: seq<T>, k: nat): (r: seq<T>)
    requires k < |s|
    ensures |r| == |s| - 1 && forall i :: 0 <= i < |r| ==> r[i] == s[if i < k then i else i + 1]
  {
    s[..k] + s[k + 1..]
  }

  /** The gap before entry j of a chain in [lo, hi). */
  function GapStart(c: seq<Addr>, j: nat, lo: Addr, minors: Minors): Addr
    requires j <= |c| && (j > 0 ==> c[j - 1] in minors)
  {
    if j == 0 then lo else End(minors, c[j - 1])
  }

  function GapEnd(c: seq<Addr>, j: nat, hi: Addr): Addr
    requires j <= |c|
  {
    if j == |c| then hi else c[j]
  }

  /** The headers after a new header x is linked in before entry j. */
  ghost predicate InsertedAt(c: seq<Addr>, j: nat, a: Addr, x: Minor, minors: Minors, minors': Minors)
    requires j <= |c| && Known(c, minors)
  {
    minors'.Keys == minors.Keys + {a} &&
    minors'[a] == x.(prev := Nth(c, j - 1), next := Nth(c, j)) &&
    forall b :: b in minors && b != a ==>
      minors'[b] == if j > 0 && b == c[j - 1] then minors[b].(next := a)
                    else if j < |c| && b == c[j] then minors[b].(prev := a)
                    else minors[b]
  }

  /** A block that fits a gap lies apart from all blocks of the chain. */
  lemma GapApart(c: seq<Addr>, j: nat, lo: Addr, hi: Addr, minors: Minors, a: Addr, size: nat, i: nat)
    requires Known(c, minors) && Placed(c, lo, hi, minors) && j <= |c| && i < |c|
    requires GapStart(c, j, lo, minors) <= a && a + MINOR_HEADER + size <= GapEnd(c, j, hi)
    ensures if i < j then End(minors, c[i]) <= a else a + MINOR_HEADER + size <= c[i]
    ensures lo <= a && a + MINOR_HEADER + size <= hi
  {
    if i + 1 < j { assert End(minors, c[i]) <= c[j - 1]; }
    if j < i { assert End(minors, c[j]) <= c[i]; }
  }

  lemma InsertKeepsChain(c: seq<Addr>, j: nat, m: Addr, lo: Addr, hi: Addr, a: Addr, x: Minor, minors: Minors,
                         minors': Minors)
    requires Known(c, minors) && Linked(c, m, minors) && Placed(c, lo, hi, minors) && j <= |c|
    requires GapStart(c, j, lo, minors) <= a && a + MINOR_HEADER + x.size <= GapEnd(c, j, hi)
    requires x.block == m && x.magic == MAGIC && InsertedAt(c, j, a, x, minors, minors')
    ensures Known(Insert(c, j, a), minors')
    ensures Linked(Insert(c, j, a), m, minors') && Placed(Insert(c, j, a), lo, hi, minors')
  {
    var c' := Insert(c, j, a);
    forall i | 0 <= i < |c|
      ensures c[i] != a && c[i] in minors'
      ensures minors'[c[i]] == minors[c[i]].(next := if i + 1 == j then a else minors[c[i]].next,
                                             prev := if i == j then a else minors[c[i]].prev)
      ensures if i < j then End(minors, c[i]) <= a else a + MINOR_HEADER + x.size <= c[i]
    {
      GapApart(c, j, lo, hi, minors, a, x.size, i);
      if 0 < j && i != j - 1 { Different(c, lo, hi, minors, i, j - 1); }
      if j < |c| && i != j { Different(c, lo, hi, minors, i, j); }
    }
    if c == [] {
      assert lo <= a && a + MINOR_HEADER + x.size <= hi;
    } else {
      GapApart(c, j, lo, hi, minors, a, x.size, 0);
    }
    InsertLinks(c, j, m, a, x, minors, minors');
    InsertPlaces(c, j, lo, hi, a, x, minors, minors');
  }

  lemma InsertLinks(c: seq<Addr>, j: nat, m: Addr, a: Addr, x: Minor, minors: Minors, minors': Minors)
    requires Known(c, minors) && Linked(c, m, minors) && j <= |c| && x.block == m && x.magic == MAGIC && a in minors'
    requires minors'[a] == x.(prev := Nth(c, j - 1), next := Nth(c, j))
    requires forall i :: 0 <= i < |c| ==>
               c[i] in minors' &&
               minors'[c[i]] == minors[c[i]].(next := if i + 1 == j then a else minors[c[i]].next,
                                              prev := if i == j then a else minors[c[i]].prev)
    ensures Known(Insert(c, j, a), minors') && Linked(Insert(c, j, a), m, minors')
  {
    var c' := Insert(c, j, a);
    forall k | 0 <= k < |c'|
      ensures c'[k] in minors' && LinkedEntry(c', k, m, minors')
    {
      if k < j {
        assert LinkedEntry(c, k, m, minors);
      } else if k > j {
        assert LinkedEntry(c, k - 1, m, minors);
      }
    }
  }

  lemma InsertPlaces(c: seq<Addr>, j: nat, lo: Addr, hi: Addr, a: Addr, x: Minor, minors: Minors, minors': Minors)
    requires Known(c, minors) && Placed(c, lo, hi, minors) && j <= |c| && a in minors' && minors'[a].size == x.size
    requires lo <= a && a + MINOR_HEADER + x.size <= hi
    requires forall i :: 0 <= i < |c| ==> c[i] in minors' && minors'[c[i]].size == minors[c[i]].size
    requires forall i :: 0 <= i < |c| ==> if i < j then End(minors, c[i]) <= a else a + MINOR_HEADER + x.size <= c[i]
    ensures Known(Insert(c, j, a), minors') && Placed(Insert(c, j, a), lo, hi, minors')
  {
    var c' := Insert(c, j, a);
    forall i, k | 0 <= i < k < |c'| ensures End(minors', c'[i]) <= c'[k] {
      var i0, k0 := if i < j then i else i - 1, if k < j then k else k - 1;
      if i != j && k != j { assert End(minors, c[i0]) <= c[k0]; }
    }
  }

  /** ALIGN's only effect on memory. */
  ghost predicate NoteWritten(a: Addr, memory: Addr -> int, memory': Addr -> int) {
    memory'(NoteAt(a)) == Note(a) && forall b: Addr :: b != NoteAt(a) ==> memory'(b) == memory(b)
  }

  /** Linking in a block that fits a gap, and aligning its pointer, keeps the major block in order. */
  lemma InsertKeepsMajor(m: Addr, maj: Major, c: seq<Addr>, j: nat, a: Addr, x: Minor, minors: Minors,
                         memory: Addr -> int,
                         minors': Minors, memory': Addr -> int, maj': Major)
    requires MajorOk(m, maj, c, minors, memory) && j <= |c|
    requires GapStart(c, j, m + MAJOR_HEADER, minors) <= a && a + MINOR_HEADER + x.size <= GapEnd(c, j, m + maj.size)
    requires x.block == m && x.magic == MAGIC && x.reqSize + ALIGNMENT + ALIGN_INFO <= x.size
    requires InsertedAt(c, j, a, x, minors, minors')
    requires NoteWritten(a, memory, memory')
    requires maj' == maj.(usage := maj.usage + x.size + MINOR_HEADER, first := Nth(Insert(c, j, a), 0))
    ensures MajorOk(m, maj', Insert(c, j, a), minors', memory')
    ensures Sizes(Insert(c, j, a), minors') == Sizes(c, minors) + x.size
  {
    var lo, hi := m + MAJOR_HEADER, m + maj.size;
    InsertKeepsChain(c, j, m, lo, hi, a, x, minors, minors');
    InsertKeepsNotes(m, maj, c, j, a, x, minors, memory, minors', memory');
    InsertSizes(c, j, lo, hi, a, x, minors, minors');
    assert maj'.usage == MAJOR_HEADER + Taken(Insert(c, j, a), minors');
    assert maj'.size == maj.size && maj'.first == Nth(Insert(c, j, a), 0);
  }

  lemma InsertKeepsNotes(m: Addr, maj: Major, c: seq<Addr>, j: nat, a: Addr, x: Minor, minors: Minors,
                         memory: Addr -> int,
                         minors': Minors, memory': Addr -> int)
    requires MajorOk(m, maj, c, minors, memory) && j <= |c|
    requires GapStart(c, j, m + MAJOR_HEADER, minors) <= a && a + MINOR_HEADER + x.size <= GapEnd(c, j, m + maj.size)
    requires x.reqSize + ALIGNMENT + ALIGN_INFO <= x.size && InsertedAt(c, j, a, x, minors, minors')
    requires NoteWritten(a, memory, memory')
    ensures Known(Insert(c, j, a), minors') && Noted(Insert(c, j, a), minors', memory')
  {
    var c' := Insert(c, j, a);
    forall k | 0 <= k < |c'|
      ensures c'[k] in minors' && NotedBlock(c'[k], minors', memory')
    {
      if k != j {
        var i := if k < j then k else k - 1;
        assert c'[k] == c[i] && NotedBlock(c[i], minors, memory);
        GapApart(c, j, m + MAJOR_HEADER, m + maj.size, minors, a, x.size, i);
        NotesApart(c[i], minors[c[i]].size, a, x.size);
      }
    }
  }

  /** Blocks that do not overlap keep their notes at different places. */
  lemma NotesApart(a: Addr, size: nat, b: Addr, size': nat)
    requires size >= ALIGNMENT + ALIGN_INFO && size' >= ALIGNMENT + ALIGN_INFO
    requires a + MINOR_HEADER + size <= b || b + MINOR_HEADER + size' <= a
    ensures NoteAt(a) != NoteAt(b)
  {
    UserIsAligned(a);
    UserIsAligned(b);
  }

  lemma InsertSizes(c: seq<Addr>, j: nat, lo: Addr, hi: Addr, a: Addr, x: Minor, minors: Minors, minors': Minors)
    requires Known(c, minors) && Placed(c, lo, hi, minors) && j <= |c|
    requires GapStart(c, j, lo, minors) <= a && a + MINOR_HEADER + x.size <= GapEnd(c, j, hi)
    requires InsertedAt(c, j, a, x, minors, minors')
    ensures Known(Insert(c, j, a), minors') && Sizes(Insert(c, j, a), minors') == Sizes(c, minors) + x.size
    ensures Taken(Insert(c, j, a), minors') == Taken(c, minors) + x.size + MINOR_HEADER
  {
    forall i | 0 <= i < |c| ensures c[i] != a { GapApart(c, j, lo, hi, minors, a, x.size, i); }
    SizesFrame(c, minors, minors');
    SizesWith(c, j, a, minors');
  }

  lemma SizesWith(c: seq<Addr>, j: nat, a: Addr, minors: Minors)
    requires Known(c, minors) && j <= |c| && a in minors
    ensures Known(Insert(c, j, a), minors) && Sizes(Insert(c, j, a), minors) == Sizes(c, minors) + minors[a].size
  {
    assert c[..j] + c[j..] == c;
    SizesAppend(c[..j], c[j..], minors);
    SizesAppend(c[..j], [a], minors);
    SizesAppend(c[..j] + [a], c[j..], minors);
    SizesOne(a, minors);
  }

  // ---------- removing a block ----------

  /** The headers after entry j is unlinked. */
  ghost predicate RemovedAt(c: seq<Addr>, j: nat, minors: Minors, minors': Minors)
    requires j < |c| && Known(c, minors)
  {
    minors'.Keys == minors.Keys && minors'[c[j]].magic == DEAD &&
    forall b :: b in minors && b != c[j] ==>
      minors'[b] == if j > 0 && b == c[j - 1] then minors[b].(next := Nth(c, j + 1))
                    else if j + 1 < |c| && b == c[j + 1] then minors[b].(prev := Nth(c, j - 1))
                    else minors[b]
  }

  /** What unlinking entry j leaves of the other entries. */
  lemma RemovedEntry(c: seq<Addr>, j: nat, lo: Addr, hi: Addr, minors: Minors, minors': Minors, i: nat)
    requires Known(c, minors) && Placed(c, lo, hi, minors) && j < |c| && RemovedAt(c, j, minors, minors') && i < |c| &&
             i != j
    ensures c[i] in minors' && c[i] != c[j]
    ensures minors'[c[i]] == minors[c[i]].(next := if i + 1 == j then Nth(c, j + 1) else minors[c[i]].next,
                                           prev := if i == j + 1 then Nth(c, j - 1) else minors[c[i]].prev)
  {
    Different(c, lo, hi, minors, i, j);
    if 0 < j && i != j - 1 { Different(c, lo, hi, minors, i, j - 1); }
    if j + 1 < |c| && i != j + 1 { Different(c, lo, hi, minors, i, j + 1); }
  }

  /** Unlinking a block keeps the major block in order. */
  lemma RemoveKeepsMajor(m: Addr, maj: Major, c: seq<Addr>, j: nat, minors: Minors, memory: Addr -> int,
                         minors': Minors, maj': Major)
    requires MajorOk(m, maj, c, minors, memory) && j < |c| && RemovedAt(c, j, minors, minors')
    requires maj.usage >= minors[c[j]].size + MINOR_HEADER
    requires maj' == maj.(usage := maj.usage - (minors[c[j]].size + MINOR_HEADER), first := Nth(Without(c, j), 0))
    ensures MajorOk(m, maj', Without(c, j), minors', memory)
    ensures Sizes(Without(c, j), minors') + minors[c[j]].size == Sizes(c, minors)
  {
    var c', lo, hi := Without(c, j), m + MAJOR_HEADER, m + maj.size;
    RemovePlaces(c, j, lo, hi, minors, minors');
    RemoveSizes(c, j, lo, hi, minors, minors');
    RemoveLinks(c, j, m, lo, hi, minors, minors');
    RemoveNotes(c, j, lo, hi, minors, memory, minors');
  }

  lemma RemoveNotes(c: seq<Addr>, j: nat, lo: Addr, hi: Addr, minors: Minors, memory: Addr -> int, minors': Minors)
    requires Known(c, minors) && Noted(c, minors, memory) && Placed(c, lo, hi, minors) && j < |c| &&
             RemovedAt(c, j, minors, minors')
    ensures Known(Without(c, j), minors') && Noted(Without(c, j), minors', memory)
  {
    var c' := Without(c, j);
    forall k | 0 <= k < |c'| ensures c'[k] in minors' && NotedBlock(c'[k], minors', memory) {
      var i := if k < j then k else k + 1;
      RemovedEntry(c, j, lo, hi, minors, minors', i);
      assert c'[k] == c[i] && NotedBlock(c[i], minors, memory);
    }
  }

  lemma RemoveLinks(c: seq<Addr>, j: nat, m: Addr, lo: Addr, hi: Addr, minors: Minors, minors': Minors)
    requires Known(c, minors) && Linked(c, m, minors) && Placed(c, lo, hi, minors) && j < |c| &&
             RemovedAt(c, j, minors, minors')
    ensures Known(Without(c, j), minors') && Linked(Without(c, j), m, minors')
  {
    var c' := Without(c, j);
    forall k | 0 <= k < |c'| ensures c'[k] in minors' && LinkedEntry(c', k, m, minors') {
      var i := if k < j then k else k + 1;
      RemovedEntry(c, j, lo, hi, minors, minors', i);
      assert LinkedEntry(c, i, m, minors);
      RemoveLink(c, j, m, minors, minors', k);
    }
  }

  lemma RemoveLink(c: seq<Addr>, j: nat, m: Addr, minors: Minors, minors': Minors, k: nat)
    requires j < |c| && k < |c| - 1 && (var i := if k < j then k else k + 1;
             c[i] in minors && c[i] in minors' && LinkedEntry(c, i, m, minors) &&
             minors'[c[i]] == minors[c[i]].(next := if i + 1 == j then Nth(c, j + 1) else minors[c[i]].next,
                                            prev := if i == j + 1 then Nth(c, j - 1) else minors[c[i]].prev))
    ensures LinkedEntry(Without(c, j), k, m, minors')
  {
  }

  lemma RemovePlaces(c: seq<Addr>, j: nat, lo: Addr, hi: Addr, minors: Minors, minors': Minors)
    requires Known(c, minors) && Placed(c, lo, hi, minors) && j < |c| && RemovedAt(c, j, minors, minors')
    ensures Known(Without(c, j), minors') && Placed(Without(c, j), lo, hi, minors')
  {
    var c' := Without(c, j);
    forall k | 0 <= k < |c'|
      ensures c'[k] in minors' && minors'[c'[k]].size == minors[c'[k]].size && c'[k] == c[if k < j then k else k + 1]
    {
      RemovedEntry(c, j, lo, hi, minors, minors', if k < j then k else k + 1);
    }
  }

  lemma SizesWithout(c: seq<Addr>, j: nat, minors: Minors)
    requires Known(c, minors) && j < |c|
    ensures Known(Without(c, j), minors) && Sizes(Without(c, j), minors) + minors[c[j]].size == Sizes(c, minors)
  {
    assert c == c[..j] + [c[j]] + c[j + 1..];
    SizesAppend(c[..j], c[j + 1..], minors);
    SizesAppend(c[..j], [c[j]], minors);
    SizesAppend(c[..j] + [c[j]], c[j + 1..], minors);
    SizesOne(c[j], minors);
  }

  lemma RemoveSizes(c: seq<Addr>, j: nat, lo: Addr, hi: Addr, minors: Minors, minors': Minors)
    requires Known(c, minors) && Placed(c, lo, hi, minors) && j < |c| && RemovedAt(c, j, minors, minors')
    ensures Known(Without(c, j), minors') && Sizes(Without(c, j), minors') + minors[c[j]].size == Sizes(c, minors)
    ensures Taken(Without(c, j), minors') + minors[c[j]].size + MINOR_HEADER == Taken(c, minors)
  {
    var c' := Without(c, j);
    SizesWithout(c, j, minors);
    forall k | 0 <= k < |c'| ensures c'[k] in minors' && minors'[c'[k]].size == minors[c'[k]].size {
      RemovedEntry(c, j, lo, hi, minors, minors', if k < j then k else k + 1);
    }
    SizesFrame(c', minors, minors');
  }
}
