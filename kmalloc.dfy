/** kmalloc, kfree and init_allocator_system of
    kernel/klib/memory/memory.cpp: the free, partial and full slab lists of
    each size class, the slab headers they lead to, and the record of large
    allocations. Each list is modelled by the page addresses of the slabs in
    it, front to back; the slab headers themselves are SlabAllocator.Slab
    objects, found from an address by rounding it down to its page. */
module Kmalloc {
  import opened Common
  import opened SlabAllocator

  // ---------------------------------------------------------------------------
  // Size classes.
  // ---------------------------------------------------------------------------

  /** The first size class from i on whose chunks hold size bytes, or
      NUM_SLAB_LISTS when none does. */
  ghost function SizeClassFrom(size: nat, i: nat): nat
    decreases NUM_SLAB_LISTS - i
  {
    if i >= NUM_SLAB_LISTS then NUM_SLAB_LISTS
    else if size <= CHUNK_SIZES[i] then i
    else SizeClassFrom(size, i + 1)
  }

  ghost function SizeClass(size: nat): nat
  {
    SizeClassFrom(size, 0)
  }

  /** The size class is the smallest whose chunks hold the request; there is
      none exactly when the request is larger than the largest chunk. */
  lemma {:induction false} SizeClassIsSmallest(size: nat)
    ensures SizeClass(size) <= NUM_SLAB_LISTS
    ensures SizeClass(size) < NUM_SLAB_LISTS ==> size <= CHUNK_SIZES[SizeClass(size)]
    ensures forall i :: 0 <= i < SizeClass(size) ==> CHUNK_SIZES[i] < size
    ensures SizeClass(size) == NUM_SLAB_LISTS <==> CHUNK_SIZES[NUM_SLAB_LISTS - 1] < size
  {
    SizeClassFromIsSmallest(size, 0);
  }

  lemma {:induction false} SizeClassFromIsSmallest(size: nat, i: nat)
    requires i <= NUM_SLAB_LISTS && forall k :: 0 <= k < i ==> CHUNK_SIZES[k] < size
    ensures i <= SizeClassFrom(size, i) <= NUM_SLAB_LISTS
    ensures SizeClassFrom(size, i) < NUM_SLAB_LISTS ==> size <= CHUNK_SIZES[SizeClassFrom(size, i)]
    ensures forall k :: 0 <= k < SizeClassFrom(size, i) ==> CHUNK_SIZES[k] < size
    decreases NUM_SLAB_LISTS - i
  {
    if i < NUM_SLAB_LISTS && CHUNK_SIZES[i] < size {
      SizeClassFromIsSmallest(size, i + 1);
    }
  }

  /** kmalloc's search for the slab index, stopping at the first size class
      that holds the request. */
  method SlabIndex(memSize: nat) returns (slabIdx: nat)
    ensures slabIdx == SizeClass(memSize)
  {
    slabIdx := NUM_SLAB_LISTS;
    var i := 0;
    while i < NUM_SLAB_LISTS
      invariant i <= NUM_SLAB_LISTS && slabIdx == NUM_SLAB_LISTS
      invariant SizeClassFrom(memSize, i) == SizeClass(memSize)
    {
      if memSize <= CHUNK_SIZES[i] {
        slabIdx := i;
        break;
      }
      i := i + 1;
    }
  }

  // ---------------------------------------------------------------------------
  // Large allocations.
  // ---------------------------------------------------------------------------

  /** kmalloc's page count for a large request as written: computed in 64
      bits, then stored in the uint32_t required_pages. */
  function LargePagesAsWritten(memSize: nat): (n: u32)
    requires 0 < memSize < 0x1_0000_0000_0000_0000
    ensures LargePages(memSize) < 0x1_0000_0000 ==> n == LargePages(memSize)
    ensures n < LargePages(memSize) <==> LargePages(memSize) >= 0x1_0000_0000
  {
    (((memSize - 1) / MEM_PAGE_SIZE + 1) % 0x1_0000_0000) as u32
  }

  /** A request of 2^53 bytes asks the page allocator for no pages at all. */
  lemma HugeRequestGetsNoPages()
    ensures LargePagesAsWritten(0x20_0000_0000_0000) == 0
  {
  }

  /** The page count kept in 64 bits, as the model's kmalloc uses it. */
  function LargePages(memSize: nat): nat
    requires 0 < memSize
  {
    (memSize - 1) / MEM_PAGE_SIZE + 1
  }

  /** The pages of a large allocation are the fewest that hold it. */
  lemma {:induction false} LargePagesFewest(memSize: nat)
    requires 0 < memSize
    ensures memSize <= LargePages(memSize) * MEM_PAGE_SIZE
    ensures (LargePages(memSize) - 1) * MEM_PAGE_SIZE < memSize
  {
    var q := (memSize - 1) / MEM_PAGE_SIZE;
    var r := (memSize - 1) % MEM_PAGE_SIZE;
    assert memSize - 1 == q * MEM_PAGE_SIZE + r;
    assert LargePages(memSize) * MEM_PAGE_SIZE == q * MEM_PAGE_SIZE + MEM_PAGE_SIZE;
  }

  /** Below 2^53 - 2MB the stored count is not truncated. */
  lemma {:induction false} LargePagesFit(memSize: nat)
    requires 0 < memSize <= 0xFFFF_FFFF * MEM_PAGE_SIZE
    ensures LargePagesAsWritten(memSize) as nat == LargePages(memSize)
  {
    DivBound(memSize - 1);
  }

  lemma DivBound(x: nat)
    requires x < 0xFFFF_FFFF * MEM_PAGE_SIZE
    ensures x / MEM_PAGE_SIZE < 0xFFFF_FFFF
  {
  }

  // ---------------------------------------------------------------------------
  // Slab lists.
  // ---------------------------------------------------------------------------

  ghost predicate NoDup(l: seq<nat>)
  {
    forall i, j | 0 <= i < j < |l| :: l[i] != l[j]
  }

  lemma NoDupTail(l: seq<nat>)
    requires |l| > 0
    ensures NoDup(l) ==> NoDup(l[1..]) && l[0] !in l[1..]
  {
    if NoDup(l) {
      forall i, j | 0 <= i < j < |l[1..]| ensures l[1..][i] != l[1..][j] {
        assert l[1..][i] == l[i + 1] && l[1..][j] == l[j + 1];
      }
      forall i | 0 <= i < |l[1..]| ensures l[1..][i] != l[0] {
        assert l[1..][i] == l[i + 1];
      }
    }
  }

  /** klib_list_remove: the list without the item of slab b; the rest keep
      their order. */
  function Without(l: seq<nat>, b: nat): (r: seq<nat>)
    ensures forall x :: x in r <==> x in l && x != b
    ensures NoDup(l) ==> NoDup(r)
  {
    if l == [] then []
    else
      var rest := Without(l[1..], b);
      assert NoDup(l) ==> NoDup(l[1..]) && l[0] !in l[1..] by {
        NoDupTail(l);
      }
      if l[0] == b then rest else [l[0]] + rest
  }

  /** klib_list_add_head or klib_list_add_tail of slab b. */
  function Added(l: seq<nat>, b: nat, atHead: bool): (r: seq<nat>)
    ensures forall x :: x in r <==> x in l || x == b
    ensures NoDup(l) && b !in l ==> NoDup(r)
  {
    if atHead then [b] + l else l + [b]
  }

  /** Removing a slab that is not in a list leaves the list as it was. */
  lemma {:induction false} WithoutAbsent(l: seq<nat>, b: nat)
    requires b !in l
    ensures Without(l, b) == l
  {
    if l != [] {
      WithoutAbsent(l[1..], b);
    }
  }

  /** klib_list_remove of the head of a list without repeats leaves its
      tail. */
  lemma RemoveFront(l: seq<nat>)
    requires NoDup(l) && l != []
    ensures Without(l, l[0]) == l[1..]
  {
    NoDupTail(l);
    WithoutAbsent(l[1..], l[0]);
  }

  /** A list a slab's list item can be in: free, partial or full, of one of
      the size classes. */
  predicate Known(id: ListId)
  {
    !id.NoList? && id.c < NUM_SLAB_LISTS
  }

  /** free_slabs_list, partial_slabs_list and full_slabs_list, each list
      given by the page addresses of its slabs, head first. */
  datatype SlabLists = SlabLists(free: seq<seq<nat>>, partial: seq<seq<nat>>, full: seq<seq<nat>>)
  {
    ghost predicate WellSized()
    {
      |free| == NUM_SLAB_LISTS && |partial| == NUM_SLAB_LISTS && |full| == NUM_SLAB_LISTS
    }

    /** The list a list_obj pointer names. */
    function Get(id: ListId): seq<nat>
    {
      match id
      case NoList => []
      case FreeList(c) => if c < |free| then free[c] else []
      case PartialList(c) => if c < |partial| then partial[c] else []
      case FullList(c) => if c < |full| then full[c] else []
    }

    /** The lists with list id replaced by l. */
    function Put(id: ListId, l: seq<nat>): (r: SlabLists)
      requires WellSized() && Known(id)
      ensures r.WellSized() && r.Get(id) == l
      ensures forall id': ListId :: id' != id ==> r.Get(id') == Get(id')
    {
      match id
      case FreeList(c) => this.(free := free[c := l])
      case PartialList(c) => this.(partial := partial[c := l])
      case FullList(c) => this.(full := full[c := l])
    }
  }

  /** Every slab in list id has a list item that points back at it, and no
      slab is in it twice. */
  ghost predicate Listed(lists: SlabLists, listOf: map<nat, ListId>, id: ListId)
  {
    var l := lists.Get(id);
    && NoDup(l)
    && forall i | 0 <= i < |l| :: l[i] in listOf && listOf[l[i]] == id
  }

  /** Slab b, if its header is known, is in the list its list item names. */
  ghost predicate Homed(lists: SlabLists, listOf: map<nat, ListId>, b: nat)
  {
    b in listOf ==> listOf[b] == NoList || (Known(listOf[b]) && b in lists.Get(listOf[b]))
  }

  /** The lists and the list items of the slab headers agree: each slab is
      in at most one list, the one its list item names. (The quantifiers
      fire only on Listed and Homed terms, which the lemmas below supply.) */
  ghost predicate Linked(lists: SlabLists, listOf: map<nat, ListId>)
  {
    && lists.WellSized()
    && (forall id {:trigger Listed(lists, listOf, id)} | Known(id) :: Listed(lists, listOf, id))
    && (forall b {:trigger Homed(lists, listOf, b)} :: Homed(lists, listOf, b))
  }

  /** The front slab of a non-empty list names that list. */
  lemma FrontIsListed(lists: SlabLists, listOf: map<nat, ListId>, id: ListId)
    requires Linked(lists, listOf) && Known(id) && lists.Get(id) != []
    ensures lists.Get(id)[0] in listOf && listOf[lists.Get(id)[0]] == id
    ensures Without(lists.Get(id), lists.Get(id)[0]) == lists.Get(id)[1..]
  {
    assert Listed(lists, listOf, id);
    RemoveFront(lists.Get(id));
  }

  /** A slab whose list item names a list is in that list. */
  lemma HomeHolds(lists: SlabLists, listOf: map<nat, ListId>, b: nat)
    requires Linked(lists, listOf) && b in listOf && listOf[b] != NoList
    ensures Known(listOf[b]) && b in lists.Get(listOf[b])
  {
    assert Homed(lists, listOf, b);
  }

  lemma NotInOther(lists: SlabLists, listOf: map<nat, ListId>, id: ListId, b: nat)
    requires Listed(lists, listOf, id) && b in listOf && listOf[b] != id
    ensures b !in lists.Get(id)
  {
  }

  lemma ListedOther(lists: SlabLists, lists': SlabLists, listOf: map<nat, ListId>, id: ListId, b: nat, v: ListId)
    requires Listed(lists, listOf, id) && b !in lists.Get(id) && lists'.Get(id) == lists.Get(id)
    ensures Listed(lists', listOf[b := v], id)
  {
  }

  /** A slab in no list joins list id: the lists stay linked. */
  lemma {:induction false} AttachKeepsLinked(lists: SlabLists, listOf: map<nat, ListId>, b: nat, id: ListId, atHead: bool)
    requires Linked(lists, listOf) && b in listOf && listOf[b] == NoList && Known(id)
    ensures Linked(lists.Put(id, Added(lists.Get(id), b, atHead)), listOf[b := id])
  {
    var lists' := lists.Put(id, Added(lists.Get(id), b, atHead));
    var listOf' := listOf[b := id];
    forall id' | Known(id') ensures Listed(lists', listOf', id') {
      assert Listed(lists, listOf, id');
      NotInOther(lists, listOf, id', b);
      if id' == id {
        var l := Added(lists.Get(id), b, atHead);
        forall i | 0 <= i < |l| ensures l[i] in listOf' && listOf'[l[i]] == id {
          assert l[i] == b || l[i] in lists.Get(id);
        }
      } else {
        ListedOther(lists, lists', listOf, id', b, id);
      }
    }
    forall b' ensures Homed(lists', listOf', b') {
      assert Homed(lists, listOf, b');
      if b' in listOf' && b' != b && listOf[b'] != NoList {
        assert b' in lists.Get(listOf[b']);
      }
    }
  }

  /** A slab leaves the list it is in: the lists stay linked. */
  lemma {:induction false} DetachKeepsLinked(lists: SlabLists, listOf: map<nat, ListId>, b: nat)
    requires Linked(lists, listOf) && b in listOf && Known(listOf[b])
    ensures var id := listOf[b];
      Linked(lists.Put(id, Without(lists.Get(id), b)), listOf[b := NoList])
  {
    var id := listOf[b];
    HomeHolds(lists, listOf, b);
    var lists' := lists.Put(id, Without(lists.Get(id), b));
    var listOf' := listOf[b := NoList];
    forall id' | Known(id') ensures Listed(lists', listOf', id') {
      assert Listed(lists, listOf, id');
      if id' == id {
        var l := Without(lists.Get(id), b);
        forall i | 0 <= i < |l| ensures l[i] in listOf' && listOf'[l[i]] == id {
          assert l[i] in lists.Get(id) && l[i] != b;
        }
      } else {
        NotInOther(lists, listOf, id', b);
        ListedOther(lists, lists', listOf, id', b, NoList);
      }
    }
    forall b' ensures Homed(lists', listOf', b') {
      assert Homed(lists, listOf, b');
      if b' in listOf' && b' != b && listOf[b'] != NoList {
        assert b' in lists.Get(listOf[b']);
      }
    }
  }

  /** A new slab in no list, or one in no list dropped, leaves the lists
      linked. */
  lemma {:induction false} UnlistedKeepsLinked(lists: SlabLists, listOf: map<nat, ListId>, b: nat)
    requires Linked(lists, listOf) && (b in listOf ==> listOf[b] == NoList)
    ensures Linked(lists, listOf[b := NoList])
    ensures Linked(lists, listOf - {b})
  {
    var unlisted, dropped := listOf[b := NoList], listOf - {b};
    forall id' | Known(id') ensures Listed(lists, unlisted, id') && Listed(lists, dropped, id') {
      assert Listed(lists, listOf, id');
      if b in listOf {
        NotInOther(lists, listOf, id', b);
      } else {
        assert b !in lists.Get(id');
      }
    }
    forall b' ensures Homed(lists, unlisted, b') {
      assert Homed(lists, listOf, b');
    }
    forall b' ensures Homed(lists, dropped, b') {
      assert Homed(lists, listOf, b');
    }
  }

  // ---------------------------------------------------------------------------
  // The slab headers.
  // ---------------------------------------------------------------------------

  /** The slab at page b is as full as the list its list item names. */
  ghost predicate FitsAt(slabs: map<nat, Slab>, listOf: map<nat, ListId>, b: nat)
    reads if b in slabs then {slabs[b], slabs[b].bitmap} else {}
  {
    b in slabs && b in listOf && slabs[b].Fits(listOf[b])
  }

  /** Two slab headers do not share a bitmap. */
  predicate Apart(s: Slab, t: Slab)
  {
    s.bitmap != t.bitmap
  }

  /** Every slab header (and its bitmap) is in repr, at its own page, has
      its own bitmap and is as full as the list its list item names, except
      perhaps the slab at page x: kfree and kmalloc change a slab before they
      move it between lists. */
  ghost predicate SlabsFit(slabs: map<nat, Slab>, listOf: map<nat, ListId>, x: int, repr: set<object>)
    reads repr
  {
    && (forall b {:trigger slabs[b]} | b in slabs ::
          slabs[b] in repr && slabs[b].bitmap in repr && slabs[b].base == b && b in listOf)
    && (forall b {:trigger FitsAt(slabs, listOf, b)} | b in slabs && b != x :: FitsAt(slabs, listOf, b))
    && (forall b, b' {:trigger Apart(slabs[b], slabs[b'])} | b in slabs && b' in slabs && b != b' ::
          Apart(slabs[b], slabs[b']))
  }

  /** A slab that fits list id may be filed there. */
  lemma SlabsFitMove(slabs: map<nat, Slab>, listOf: map<nat, ListId>, b: nat, id: ListId, repr: set<object>)
    requires SlabsFit(slabs, listOf, b, repr) && b in slabs && slabs[b].Fits(id)
    ensures SlabsFit(slabs, listOf[b := id], -1, repr)
  {
    forall b' | b' in slabs ensures FitsAt(slabs, listOf[b := id], b') {
      if b' != b {
        assert FitsAt(slabs, listOf, b');
      }
    }
  }

  /** A slab taken out of every list is exempt; one that is then dropped
      leaves the rest fitting. */
  lemma SlabsFitUnlist(slabs: map<nat, Slab>, listOf: map<nat, ListId>, b: nat, repr: set<object>)
    requires SlabsFit(slabs, listOf, b, repr) || SlabsFit(slabs, listOf, -1, repr)
    ensures SlabsFit(slabs, listOf[b := NoList], b, repr)
    ensures SlabsFit(slabs - {b}, listOf - {b}, -1, repr)
  {
    forall b' | b' in slabs && b' != b ensures FitsAt(slabs, listOf[b := NoList], b') {
      assert FitsAt(slabs, listOf, b');
    }
    forall b' | b' in slabs - {b} ensures FitsAt(slabs - {b}, listOf - {b}, b') {
      assert FitsAt(slabs, listOf, b');
    }
    forall b', b'' | b' in slabs - {b} && b'' in slabs - {b} && b' != b'' ensures Apart((slabs - {b})[b'], (slabs - {b})[b'']) {
      assert Apart(slabs[b'], slabs[b'']);
    }
  }

  /** A fresh slab header, outside every list, joins the others. */
  lemma SlabsFitAdd(slabs: map<nat, Slab>, listOf: map<nat, ListId>, repr: set<object>, s: Slab)
    requires SlabsFit(slabs, listOf, -1, repr) && s.base !in slabs
    requires forall b | b in slabs :: slabs[b] != s && slabs[b].bitmap != s.bitmap
    ensures SlabsFit(slabs[s.base := s], listOf[s.base := NoList], s.base, repr + {s, s.bitmap})
  {
    var slabs', listOf' := slabs[s.base := s], listOf[s.base := NoList];
    forall b | b in slabs' && b != s.base ensures FitsAt(slabs', listOf', b) {
      assert FitsAt(slabs, listOf, b);
    }
    forall b, b' | b in slabs' && b' in slabs' && b != b' ensures Apart(slabs'[b], slabs'[b']) {
      if b != s.base && b' != s.base {
        assert Apart(slabs[b], slabs[b']);
      }
    }
  }

  /** The allocator's lists and maps agree, with the slab at page x (if
      any) allowed to be in no list. */
  ghost predicate Bookkept(pages: set<nat>, listOf: map<nat, ListId>, lists: SlabLists,
                     largeAllocations: map<nat, nat>, x: int)
  {
    && Linked(lists, listOf)
    && listOf.Keys == pages
    && (forall b | b in listOf && b != x :: listOf[b] != NoList)
    && (forall a | a in largeAllocations :: a % MEM_PAGE_SIZE == 0)
  }

  /** The whole of the allocator's bookkeeping, as values. */
  ghost predicate Coherent(slabs: map<nat, Slab>, listOf: map<nat, ListId>, lists: SlabLists,
                           largeAllocations: map<nat, nat>, x: int, repr: set<object>)
    reads repr
  {
    Bookkept(slabs.Keys, listOf, lists, largeAllocations, x) && SlabsFit(slabs, listOf, x, repr)
  }

  /** What holds with no exception holds with one. */
  lemma CoherentExcept(slabs: map<nat, Slab>, listOf: map<nat, ListId>, lists: SlabLists,
                       large: map<nat, nat>, repr: set<object>, x: nat)
    requires Coherent(slabs, listOf, lists, large, -1, repr)
    ensures Coherent(slabs, listOf, lists, large, x, repr)
  {
    forall b | b in slabs && b != x ensures FitsAt(slabs, listOf, b) {
      assert FitsAt(slabs, listOf, b);
    }
  }

  /** allocate_new_slab keeps the bookkeeping, the new slab being in no list. */
  lemma AddKeepsCoherent(slabs: map<nat, Slab>, listOf: map<nat, ListId>, lists: SlabLists,
                         large: map<nat, nat>, repr: set<object>, s: Slab)
    requires Coherent(slabs, listOf, lists, large, -1, repr) && s.base !in slabs
    requires forall b | b in slabs :: slabs[b] != s && slabs[b].bitmap != s.bitmap
    ensures Coherent(slabs[s.base := s], listOf[s.base := NoList], lists, large, s.base, repr + {s, s.bitmap})
  {
    UnlistedKeepsLinked(lists, listOf, s.base);
    SlabsFitAdd(slabs, listOf, repr, s);
  }

  /** Filing the slab in no list into a list it fits restores the
      bookkeeping. */
  lemma AttachKeepsCoherent(slabs: map<nat, Slab>, listOf: map<nat, ListId>, lists: SlabLists,
                            large: map<nat, nat>, repr: set<object>, b: nat, id: ListId, atHead: bool)
    requires Coherent(slabs, listOf, lists, large, b, repr) && b in slabs && listOf[b] == NoList
    requires Known(id) && slabs[b].Fits(id)
    ensures Coherent(slabs, listOf[b := id], lists.Put(id, Added(lists.Get(id), b, atHead)), large, -1, repr)
  {
    AttachKeepsLinked(lists, listOf, b, id, atHead);
    SlabsFitMove(slabs, listOf, b, id, repr);
  }

  /** Taking slab b out of its list leaves it the exception. */
  lemma DetachKeepsCoherent(slabs: map<nat, Slab>, listOf: map<nat, ListId>, lists: SlabLists,
                            large: map<nat, nat>, repr: set<object>, b: nat)
    requires Coherent(slabs, listOf, lists, large, b, repr) && b in slabs && listOf[b] != NoList
    ensures Known(listOf[b])
    ensures Coherent(slabs, listOf[b := NoList], lists.Put(listOf[b], Without(lists.Get(listOf[b]), b)), large, b, repr)
  {
    HomeHolds(lists, listOf, b);
    DetachKeepsLinked(lists, listOf, b);
    SlabsFitUnlist(slabs, listOf, b, repr);
  }

  /** Moving slab b from its list to the tail of list id, which it fits,
      restores the bookkeeping. */
  lemma MoveKeepsCoherent(slabs: map<nat, Slab>, listOf: map<nat, ListId>, lists: SlabLists,
                          large: map<nat, nat>, repr: set<object>, b: nat, id: ListId)
    requires Coherent(slabs, listOf, lists, large, b, repr) && b in slabs && listOf[b] != NoList
    requires Known(id) && slabs[b].Fits(id)
    ensures Known(listOf[b])
    ensures var lists' := lists.Put(listOf[b], Without(lists.Get(listOf[b]), b));
      Coherent(slabs, listOf[b := id], lists'.Put(id, Added(lists'.Get(id), b, false)), large, -1, repr)
  {
    DetachKeepsCoherent(slabs, listOf, lists, large, repr, b);
    var lists' := lists.Put(listOf[b], Without(lists.Get(listOf[b]), b));
    AttachKeepsCoherent(slabs, listOf[b := NoList], lists', large, repr, b, id, false);
    assert listOf[b := NoList][b := id] == listOf[b := id];
  }

  /** Forgetting the slab in no list restores the bookkeeping. */
  lemma DropKeepsCoherent(slabs: map<nat, Slab>, listOf: map<nat, ListId>, lists: SlabLists,
                          large: map<nat, nat>, repr: set<object>, b: nat)
    requires Coherent(slabs, listOf, lists, large, b, repr) && b in slabs && listOf[b] == NoList
    ensures Coherent(slabs - {b}, listOf - {b}, lists, large, -1, repr)
  {
    UnlistedKeepsLinked(lists, listOf, b);
    SlabsFitUnlist(slabs, listOf, b, repr);
  }

  /** A slab still in its list that fits it again restores the bookkeeping. */
  lemma RefitKeepsCoherent(slabs: map<nat, Slab>, listOf: map<nat, ListId>, lists: SlabLists,
                           large: map<nat, nat>, repr: set<object>, b: nat)
    requires Coherent(slabs, listOf, lists, large, b, repr) && b in slabs
    requires listOf[b] != NoList && slabs[b].Fits(listOf[b])
    ensures Coherent(slabs, listOf, lists, large, -1, repr)
  {
    SlabsFitMove(slabs, listOf, b, listOf[b], repr);
    assert listOf[b := listOf[b]] == listOf;
  }

  /** Recording or forgetting page-aligned large allocations keeps the
      bookkeeping. */
  lemma LargeKeepsCoherent(slabs: map<nat, Slab>, listOf: map<nat, ListId>, lists: SlabLists,
                           large: map<nat, nat>, large': map<nat, nat>, repr: set<object>)
    requires Coherent(slabs, listOf, lists, large, -1, repr)
    requires forall a | a in large' :: a in large || a % MEM_PAGE_SIZE == 0
    ensures Coherent(slabs, listOf, lists, large', -1, repr)
  {
  }

  // ---------------------------------------------------------------------------
  // The allocator.
  // ---------------------------------------------------------------------------

  /** A list without its head. */
  /** The size class a slab in list id hands out chunks of, or -1 for a
      slab in a free list or in none: kfree finds its chunks there. */
  function HeldClass(id: ListId): int
  {
    match id
    case PartialList(c) => c
    case FullList(c) => c
    case _ => -1
  }

  function Tail(l: seq<nat>): seq<nat>
  {
    if l == [] then [] else l[1..]
  }

  /** One list per size class, all empty. */
  const NO_SLABS: seq<seq<nat>> := [[], [], [], [], []]

  /** The free lists once init_allocator_system has filed the slabs on the
      first i pages. */
  function FreeListsFrom(pages: seq<nat>, i: nat): (r: seq<seq<nat>>)
    requires |pages| == NUM_SLAB_LISTS
    ensures |r| == NUM_SLAB_LISTS
    ensures forall c | 0 <= c < NUM_SLAB_LISTS :: r[c] == if c < i then [pages[c]] else []
  {
    seq(NUM_SLAB_LISTS, c requires 0 <= c < NUM_SLAB_LISTS => if c < i then [pages[c]] else [])
  }

  lemma FreeListsStep(pages: seq<nat>, i: nat)
    requires |pages| == NUM_SLAB_LISTS && i < NUM_SLAB_LISTS
    ensures var lists := SlabLists(FreeListsFrom(pages, i), NO_SLABS, NO_SLABS);
      lists.WellSized() && lists.Get(FreeList(i)) == [] &&
      lists.Put(FreeList(i), Added(lists.Get(FreeList(i)), pages[i], false))
        == SlabLists(FreeListsFrom(pages, i + 1), NO_SLABS, NO_SLABS)
  {
    var a, b := FreeListsFrom(pages, i)[i := [] + [pages[i]]], FreeListsFrom(pages, i + 1);
    forall c | 0 <= c < NUM_SLAB_LISTS ensures a[c] == b[c] {
    }
    assert a == b;
  }

  /** The first i pages, as a set. */
  ghost function PagesBefore(pages: seq<nat>, i: nat): set<nat>
    requires i <= |pages|
  {
    set k | 0 <= k < i :: pages[k]
  }

  lemma PagesBeforeStep(pages: seq<nat>, i: nat)
    requires i < |pages| && forall k, j | 0 <= k < j < |pages| :: pages[k] != pages[j]
    ensures pages[i] !in PagesBefore(pages, i)
    ensures PagesBefore(pages, i + 1) == PagesBefore(pages, i) + {pages[i]}
  {
  }

  class Allocator {
    /** The slab header at each page the allocator holds. */
    var slabs: map<nat, Slab>
    /** The list_obj of each slab header's list item. */
    var listOf: map<nat, ListId>
    var lists: SlabLists
    /** large_allocations: first address to number of pages. */
    var largeAllocations: map<nat, nat>
    /** The slab headers and their bitmaps. */
    ghost var Repr: set<object>

    /** The allocator's bookkeeping, with the slab at page x (if any) allowed
        to be in no list or in a list it no longer fits. */
    ghost predicate CoherentBut(x: int)
      reads this, Repr
    {
      this !in Repr && Coherent(slabs, listOf, lists, largeAllocations, x, Repr)
    }

    /** Every slab is in exactly one list, the one that matches how full it
        is. */
    ghost predicate Valid()
      reads this, Repr
    {
      CoherentBut(-1)
    }

    /** init_allocator_system: one empty slab of each size class, on the
        pages the page allocator hands out, each at the tail of its free
        list; no large allocations yet. */
    constructor (pages: seq<nat>)
      requires |pages| == NUM_SLAB_LISTS
      requires forall i | 0 <= i < |pages| :: pages[i] % MEM_PAGE_SIZE == 0
      requires forall i, j | 0 <= i < j < |pages| :: pages[i] != pages[j]
      ensures Valid()
      ensures lists == SlabLists(FreeListsFrom(pages, NUM_SLAB_LISTS), NO_SLABS, NO_SLABS)
      ensures slabs.Keys == PagesBefore(pages, NUM_SLAB_LISTS)
      ensures largeAllocations == map[]
    {
      slabs, listOf, largeAllocations, Repr := map[], map[], map[], {};
      lists := SlabLists(NO_SLABS, NO_SLABS, NO_SLABS);
      new;
      assert FreeListsFrom(pages, 0) == NO_SLABS;
      for i := 0 to NUM_SLAB_LISTS
        invariant Valid()
        invariant lists == SlabLists(FreeListsFrom(pages, i), NO_SLABS, NO_SLABS)
        invariant slabs.Keys == PagesBefore(pages, i)
        invariant largeAllocations == map[]
      {
        PagesBeforeStep(pages, i);
        FileNewSlab(pages, i);
      }
    }

    /** One iteration of init_allocator_system's loop: a new slab for size
        class i at the tail of its (empty) free list. */
    method FileNewSlab(pages: seq<nat>, i: nat)
      requires |pages| == NUM_SLAB_LISTS && i < NUM_SLAB_LISTS && pages[i] % MEM_PAGE_SIZE == 0
      requires Valid() && pages[i] !in slabs
      requires lists == SlabLists(FreeListsFrom(pages, i), NO_SLABS, NO_SLABS)
      modifies this`slabs, this`listOf, this`lists, this`Repr
      ensures Valid()
      ensures lists == SlabLists(FreeListsFrom(pages, i + 1), NO_SLABS, NO_SLABS)
      ensures slabs.Keys == old(slabs.Keys) + {pages[i]}
    {
      NewSlab(pages[i], i);
      Attach(pages[i], FreeList(i), false);
      FreeListsStep(pages, i);
    }

    /** allocate_new_slab, on the page mem_allocate_pages returned: the new
        slab belongs to the allocator but is in no list yet. */
    method NewSlab(page: nat, c: nat)
      requires Valid() && c < NUM_SLAB_LISTS && page % MEM_PAGE_SIZE == 0 && page !in slabs
      modifies this`slabs, this`listOf, this`Repr
      ensures CoherentBut(page)
      ensures page in slabs && slabs == old(slabs)[page := slabs[page]] && listOf == old(listOf)[page := NoList]
      ensures slabs.Keys == old(slabs.Keys) + {page}
      ensures fresh(slabs[page]) && fresh(slabs[page].bitmap) && Repr == old(Repr) + {slabs[page], slabs[page].bitmap}
      ensures slabs[page].Valid(c) && slabs[page].Chunks() == {} && slabs[page].allocationCount == 0
    {
      var s := new Slab(page, c);
      AddKeepsCoherent(slabs, listOf, lists, largeAllocations, Repr, s);
      slabs, listOf, Repr := slabs[page := s], listOf[page := NoList], Repr + {s, s.bitmap};
    }

    /** klib_list_add_head / klib_list_add_tail of a slab in no list to list
        id, which its fullness must match. */
    method Attach(b: nat, id: ListId, atHead: bool)
      requires CoherentBut(b) && b in slabs && listOf[b] == NoList
      requires Known(id) && slabs[b].Fits(id)
      modifies this`listOf, this`lists
      ensures Valid() && listOf == old(listOf)[b := id]
      ensures lists == old(lists).Put(id, Added(old(lists).Get(id), b, atHead))
    {
      ghost var listOf0, lists0 := listOf, lists;
      assert Coherent(slabs, listOf0, lists0, largeAllocations, b, Repr);
      listOf, lists := listOf[b := id], lists.Put(id, Added(lists.Get(id), b, atHead));
      AttachKeepsCoherent(slabs, listOf0, lists0, largeAllocations, Repr, b, id, atHead);
    }

    /** klib_list_remove of a slab from the list it is in. */
    method Detach(b: nat)
      requires CoherentBut(b) && b in slabs && listOf[b] != NoList
      modifies this`listOf, this`lists
      ensures CoherentBut(b) && listOf == old(listOf)[b := NoList]
      ensures Known(old(listOf[b])) && lists == old(lists).Put(old(listOf[b]), Without(old(lists).Get(old(listOf[b])), b))
    {
      var id := listOf[b];
      ghost var listOf0, lists0 := listOf, lists;
      assert Coherent(slabs, listOf0, lists0, largeAllocations, b, Repr);
      HomeHolds(lists, listOf, b);
      listOf, lists := listOf[b := NoList], lists.Put(id, Without(lists.Get(id), b));
      DetachKeepsCoherent(slabs, listOf0, lists0, largeAllocations, Repr, b);
    }

    /** mem_deallocate_pages of a slab in no list: the allocator forgets it. */
    method Drop(b: nat)
      requires CoherentBut(b) && b in slabs && listOf[b] == NoList
      modifies this`slabs, this`listOf
      ensures Valid() && slabs == old(slabs) - {b} && listOf == old(listOf) - {b}
    {
      ghost var slabs0, listOf0 := slabs, listOf;
      assert Coherent(slabs0, listOf0, lists, largeAllocations, b, Repr);
      slabs, listOf := slabs - {b}, listOf - {b};
      DropKeepsCoherent(slabs0, listOf0, lists, largeAllocations, Repr, b);
    }

    /** kmalloc's choice of slab for size class c: the head of the partial
        list, else the head of the free list, else a new slab on page. The
        chosen slab leaves its list and has a free chunk. */
    method PickSlab(c: nat, page: nat) returns (b: nat)
      requires Valid() && c < NUM_SLAB_LISTS && page % MEM_PAGE_SIZE == 0 && page !in slabs
      modifies this`slabs, this`listOf, this`lists, this`Repr
      ensures CoherentBut(b) && b in slabs && listOf[b] == NoList
      ensures slabs[b].Valid(c) && slabs[b].allocationCount < NUM_CHUNKS_PER_SLAB[c]
      ensures b == if old(lists.partial[c]) != [] then old(lists.partial[c][0])
                   else if old(lists.free[c]) != [] then old(lists.free[c][0])
                   else page
      ensures b in old(slabs) ==> slabs == old(slabs) && Repr == old(Repr)
      ensures b !in old(slabs) ==> b == page
      ensures b !in old(slabs) ==>
        (slabs == old(slabs)[b := slabs[b]] && fresh(slabs[b]) && fresh(slabs[b].bitmap) && slabs[b].Chunks() == {}
         && Repr == old(Repr) + {slabs[b], slabs[b].bitmap})
      ensures lists.free[c] == if old(lists.partial[c]) != [] then old(lists.free[c]) else Tail(old(lists.free[c]))
      ensures listOf == old(listOf)[b := NoList]
      ensures b in old(listOf) ==> old(listOf[b]) == PartialList(c) || old(listOf[b]) == FreeList(c)
      ensures forall b' | b' in old(slabs) && b' != b ::
        b' in slabs && slabs[b'] == old(slabs[b']) && slabs[b'].Chunks() == old(slabs[b'].Chunks())
    {
      if lists.partial[c] != [] {
        b := lists.partial[c][0];
        assert lists.Get(PartialList(c)) == lists.partial[c];
        FrontIsListed(lists, listOf, PartialList(c));
        assert FitsAt(slabs, listOf, b);
        CoherentExcept(slabs, listOf, lists, largeAllocations, Repr, b);
        Detach(b);
      } else if lists.free[c] != [] {
        b := lists.free[c][0];
        assert lists.Get(FreeList(c)) == lists.free[c];
        FrontIsListed(lists, listOf, FreeList(c));
        assert FitsAt(slabs, listOf, b);
        CoherentExcept(slabs, listOf, lists, largeAllocations, Repr, b);
        Detach(b);
      } else {
        NewSlab(page, c);
        b := page;
      }
    }

    /** allocate_chunk_from_slab on the chosen slab, which is in no list:
        the other slabs keep their chunks and their fit. */
    method TakeChunk(b: nat, c: nat) returns (addr: nat)
      requires CoherentBut(b) && b in slabs && listOf[b] == NoList
      requires slabs[b].Valid(c) && slabs[b].allocationCount < NUM_CHUNKS_PER_SLAB[c]
      modifies slabs[b], slabs[b].bitmap
      ensures CoherentBut(b) && slabs[b].Valid(c) && ChunkIn(b, c, addr)
      ensures slabs[b].allocationCount == old(slabs[b].allocationCount) + 1
      ensures forall b' | b' in slabs && b' != b :: slabs[b'].Chunks() == old(slabs[b'].Chunks())
      ensures var idx := ChunkOf(b, c, addr);
        && 0 <= idx < NUM_CHUNKS_PER_SLAB[c] && addr == ChunkAddress(b, c, idx)
        && idx !in old(slabs[b].Chunks()) && (forall q: nat :: q < idx ==> q in old(slabs[b].Chunks()))
        && slabs[b].Chunks() == old(slabs[b].Chunks()) + {idx}
    {
      var s := slabs[b];
      assert s.base == b;
      addr := s.AllocateChunk(c);
      forall b' | b' in slabs && b' != b
        ensures FitsAt(slabs, listOf, b') && slabs[b'].Chunks() == old(slabs[b'].Chunks())
      {
        assert old(FitsAt(slabs, listOf, b'));
        assert Apart(slabs[b], slabs[b']) && slabs[b'].base == b';
      }
    }

    /** kmalloc's filing of the slab it allocated from: at the head of the
        full list if no chunk is left, of the partial list otherwise. */
    method FileSlab(b: nat, c: nat)
      requires CoherentBut(b) && b in slabs && listOf[b] == NoList
      requires slabs[b].Valid(c) && 0 < slabs[b].allocationCount <= NUM_CHUNKS_PER_SLAB[c]
      modifies this`listOf, this`lists
      ensures Valid()
      ensures var id := if slabs[b].allocationCount == NUM_CHUNKS_PER_SLAB[c] then FullList(c) else PartialList(c);
        && listOf == old(listOf)[b := id]
        && lists == old(lists).Put(id, [b] + old(lists).Get(id))
    {
      var full := slabs[b].IsFull(c);
      if full {
        Attach(b, FullList(c), true);
      } else {
        Attach(b, PartialList(c), true);
      }
    }

    /** kmalloc's preallocation: when the slab at b is more than 90% used
        (in integer percent) and its size class has no free slab, a new
        empty slab on page spare goes to the head of the free list. */
    method Preallocate(c: nat, b: nat, spare: nat)
      requires Valid() && c < NUM_SLAB_LISTS && b in slabs
      requires spare % MEM_PAGE_SIZE == 0 && spare !in slabs
      modifies this`slabs, this`listOf, this`lists, this`Repr
      ensures Valid()
      ensures var added := old(slabs[b].allocationCount) * 100 / NUM_CHUNKS_PER_SLAB[c] > 90 && old(lists.free[c]) == [];
        && (added ==>
              && spare in slabs && slabs == old(slabs)[spare := slabs[spare]] && fresh(slabs[spare]) && slabs[spare].Chunks() == {}
              && listOf == old(listOf)[spare := NoList][spare := FreeList(c)]
              && lists.free[c] == [spare])
        && (!added ==> slabs == old(slabs) && listOf == old(listOf) && lists == old(lists) && Repr == old(Repr))
    {
      var proportionUsed := slabs[b].allocationCount * 100 / NUM_CHUNKS_PER_SLAB[c];
      if proportionUsed > 90 && lists.free[c] == [] {
        NewSlab(spare, c);
        assert lists.Get(FreeList(c)) == [];
        Attach(spare, FreeList(c), true);
      }
    }

    /** A chunk of size class c that kmalloc handed out and kfree has not
        taken back: its slab is in the partial or full list of class c and
        the chunk's bit is set. */
    ghost predicate HoldsChunk(addr: nat, c: nat)
      reads this`slabs, this`listOf, BitmapAt(PageOf(addr))
    {
      HoldsAt(PageOf(addr), c, addr)
    }

    /** The bitmap of the slab at b, if there is one. */
    ghost function BitmapAt(b: nat): set<object>
      reads this`slabs
    {
      if b in slabs then {slabs[b].bitmap} else {}
    }

    /** HoldsChunk for the slab at b, which is addr's page. */
    ghost predicate HoldsAt(b: nat, c: nat, addr: nat)
      reads this`slabs, this`listOf, BitmapAt(b)
    {
      && ChunkIn(b, c, addr) && b in slabs && b in listOf
      && (listOf[b] == PartialList(c) || listOf[b] == FullList(c))
      && ChunkOf(b, c, addr) in slabs[b].Chunks()
    }

    /** kmalloc's allocation from the slab b it picked: its lowest free
        chunk is taken and the slab is filed by FileSlab. */
    method TakeAndFile(b: nat, c: nat) returns (addr: nat)
      requires CoherentBut(b) && b in slabs && listOf[b] == NoList
      requires slabs[b].Valid(c) && slabs[b].allocationCount < NUM_CHUNKS_PER_SLAB[c]
      modifies this`listOf, this`lists, slabs[b], slabs[b].bitmap
      ensures Valid() && ChunkIn(b, c, addr)
      ensures listOf[b] == PartialList(c) || listOf[b] == FullList(c)
      ensures ChunkOf(b, c, addr) in slabs[b].Chunks() && ChunkOf(b, c, addr) !in old(slabs[b].Chunks())
      ensures old(slabs[b].Chunks()) <= slabs[b].Chunks() && listOf == old(listOf)[b := listOf[b]]
      ensures forall b' | b' in slabs && b' != b :: slabs[b'].Chunks() == old(slabs[b'].Chunks())
    {
      addr := TakeChunk(b, c);
      FileSlab(b, c);
    }

    /** kmalloc's allocation from a slab of size class c: PickSlab's choice,
        then TakeAndFile. The chunk was free before. */
    method Serve(c: nat, page: nat) returns (b: nat, addr: nat)
      requires Valid() && c < NUM_SLAB_LISTS && page % MEM_PAGE_SIZE == 0 && page !in slabs
      modifies this`slabs, this`listOf, this`lists, this`Repr, Repr
      ensures Valid() && HoldsChunk(addr, c) && ChunkIn(b, c, addr) && b in slabs
      ensures slabs.Keys <= old(slabs.Keys) + {page}
      ensures b == if old(lists.partial[c]) != [] then old(lists.partial[c][0])
                   else if old(lists.free[c]) != [] then old(lists.free[c][0])
                   else page
      ensures b in old(slabs) ==> ChunkOf(b, c, addr) !in old(slabs[b].Chunks())
      ensures forall b' | b' in old(slabs) && b' != b ::
        && b' in slabs && slabs[b'] == old(slabs[b']) && listOf[b'] == old(listOf[b'])
        && slabs[b'].Chunks() == old(slabs[b'].Chunks())
      ensures b in old(slabs) && HeldClass(old(listOf[b])) >= 0 ==>
        HeldClass(listOf[b]) == HeldClass(old(listOf[b])) && old(slabs[b].Chunks()) <= slabs[b].Chunks()
    {
      b := PickSlab(c, page);
      label Picked:
      addr := TakeAndFile(b, c);
      forall b' | b' in old(slabs) && b' != b
        ensures && b' in slabs && slabs[b'] == old(slabs[b']) && listOf[b'] == old(listOf[b'])
                && slabs[b'].Chunks() == old(slabs[b'].Chunks())
      {
        assert old@Picked(slabs[b']) == old(slabs[b']) && old@Picked(listOf[b']) == old(listOf[b']);
        assert slabs[b'].Chunks() == old@Picked(slabs[b'].Chunks());
      }
    }

    /** kmalloc for memSize bytes. page is what the page allocator hands
        out (the pages of a large allocation, or a new slab); spare is the
        page of a preallocated slab. A request no chunk holds gets page,
        recorded with its page count; any other gets a chunk of its size
        class, which then holds it. */
    method Kmalloc(memSize: nat, page: nat, spare: nat) returns (addr: nat)
      requires Valid()
      requires page % MEM_PAGE_SIZE == 0 && page !in slabs && page !in largeAllocations
      requires spare % MEM_PAGE_SIZE == 0 && spare !in slabs && spare != page
      modifies this`slabs, this`listOf, this`lists, this`largeAllocations, this`Repr, Repr
      ensures Valid()
      ensures var c := SizeClass(memSize);
        && (c == NUM_SLAB_LISTS ==>
              && addr == page && largeAllocations == old(largeAllocations)[page := LargePages(memSize)]
              && slabs == old(slabs) && listOf == old(listOf) && lists == old(lists))
        && (c < NUM_SLAB_LISTS ==>
              && memSize <= CHUNK_SIZES[c] && HoldsChunk(addr, c) && !old(HoldsChunk(addr, c))
              && largeAllocations == old(largeAllocations))
      ensures forall a: nat, k: nat :: old(HoldsChunk(a, k)) ==> HoldsChunk(a, k)
    {
      var c := SlabIndex(memSize);
      SizeClassIsSmallest(memSize);
      if c >= NUM_SLAB_LISTS {
        addr := page;
        RecordLarge(page, LargePages(memSize));
      } else {
        addr := AllocSmall(c, page, spare);
      }
    }

    /** kmalloc's path for a size class: Serve, then Preallocate. The chunk
        returned is held and was not before; every chunk held before still
        is. */
    method AllocSmall(c: nat, page: nat, spare: nat) returns (addr: nat)
      requires Valid() && c < NUM_SLAB_LISTS
      requires page % MEM_PAGE_SIZE == 0 && page !in slabs
      requires spare % MEM_PAGE_SIZE == 0 && spare !in slabs && spare != page
      modifies this`slabs, this`listOf, this`lists, this`Repr, Repr
      ensures Valid() && HoldsChunk(addr, c) && !old(HoldsChunk(addr, c))
      ensures forall a: nat, k: nat :: old(HoldsChunk(a, k)) ==> HoldsChunk(a, k)
    {
      var b;
      b, addr := Serve(c, page);
      forall a: nat, k: nat | old(HoldsChunk(a, k)) ensures HoldsChunk(a, k) {
        var b' := PageOf(a);
        assert old(HoldsAt(b', k, a));
      }
      label Served:
      Preallocate(c, b, spare);
      forall a: nat, k: nat | old@Served(HoldsChunk(a, k)) ensures HoldsChunk(a, k) {
        var b' := PageOf(a);
        assert old@Served(HoldsAt(b', k, a)) && b' != spare;
      }
    }

    /** large_allocations->insert of a page-aligned allocation. */
    method RecordLarge(page: nat, pages: nat)
      requires Valid() && page % MEM_PAGE_SIZE == 0
      modifies this`largeAllocations
      ensures Valid() && largeAllocations == old(largeAllocations)[page := pages]
    {
      LargeKeepsCoherent(slabs, listOf, lists, largeAllocations, largeAllocations[page := pages], Repr);
      largeAllocations := largeAllocations[page := pages];
    }

    /** large_allocations->remove of a recorded large allocation. */
    method ForgetLarge(addr: nat)
      requires Valid() && addr in largeAllocations
      modifies this`largeAllocations
      ensures Valid() && largeAllocations == old(largeAllocations) - {addr}
    {
      LargeKeepsCoherent(slabs, listOf, lists, largeAllocations, largeAllocations - {addr}, Repr);
      largeAllocations := largeAllocations - {addr};
    }

    /** kfree's clearing of the chunk's bit and decrement of the slab's
        allocation count; the slab stays in its list for now. */
    method ReleaseChunk(b: nat, c: nat, addr: nat)
      requires Valid() && ChunkIn(b, c, addr) && b in slabs
      requires listOf[b] == PartialList(c) || listOf[b] == FullList(c)
      requires ChunkOf(b, c, addr) in slabs[b].Chunks()
      modifies slabs[b], slabs[b].bitmap
      ensures CoherentBut(b) && slabs[b].Valid(c)
      ensures slabs[b].Chunks() == old(slabs[b].Chunks()) - {ChunkOf(b, c, addr)}
      ensures slabs[b].allocationCount == old(slabs[b].allocationCount) - 1
      ensures forall b' | b' in slabs && b' != b :: slabs[b'].Chunks() == old(slabs[b'].Chunks())
      ensures !HoldsChunk(addr, c)
      ensures forall a: nat, k: nat :: old(HoldsChunk(a, k)) && a != addr ==> HoldsChunk(a, k)
    {
      var s := slabs[b];
      assert FitsAt(slabs, listOf, b);
      assert s.base == b;
      s.FreeChunk(c, addr);
      forall b' | b' in slabs && b' != b
        ensures FitsAt(slabs, listOf, b') && slabs[b'].Chunks() == old(slabs[b'].Chunks())
      {
        assert old(FitsAt(slabs, listOf, b'));
        assert Apart(slabs[b], slabs[b']) && slabs[b'].base == b';
      }
      forall a: nat, k: nat | old(HoldsChunk(a, k)) && a != addr ensures HoldsChunk(a, k) {
        assert old(HoldsAt(PageOf(a), k, a));
      }
    }

    /** kfree's refiling of slab b of size class c after one of its chunks
        was freed: an empty slab leaves its list and is given back to the
        page allocator when its class already has MAX_FREE_SLABS free
        slabs, and goes to the tail of the free list otherwise; a slab that
        was full goes to the tail of the partial list; a partial slab that
        is not empty stays where it is. */
    method Refile(b: nat, c: nat, wasFull: bool)
      requires CoherentBut(b) && b in slabs && slabs[b].Valid(c)
      requires listOf[b] == if wasFull then FullList(c) else PartialList(c)
      requires slabs[b].allocationCount < NUM_CHUNKS_PER_SLAB[c]
      modifies this`slabs, this`listOf, this`lists
      ensures Valid()
      ensures var empty := old(slabs[b].Chunks()) == {};
        && (empty && |old(lists.free[c])| >= MAX_FREE_SLABS ==>
              slabs == old(slabs) - {b} && listOf == old(listOf) - {b})
        && (empty && |old(lists.free[c])| < MAX_FREE_SLABS ==>
              slabs == old(slabs) && listOf == old(listOf)[b := FreeList(c)] && lists.free[c] == old(lists.free[c]) + [b])
        && (!empty ==> slabs == old(slabs) && listOf == old(listOf)[b := PartialList(c)])
      ensures forall a: nat, k: nat :: old(HoldsChunk(a, k)) <==> HoldsChunk(a, k)
    {
      var empty := slabs[b].IsEmpty();
      if empty {
        RefileEmpty(b, c);
        forall a: nat, k: nat ensures old(HoldsChunk(a, k)) <==> HoldsChunk(a, k) {
          assert !old(HoldsAt(b, k, a));
        }
      } else if wasFull {
        Unfull(b, c);
        forall a: nat, k: nat ensures old(HoldsChunk(a, k)) <==> HoldsChunk(a, k) {
          assert old(HoldsAt(PageOf(a), k, a)) <==> old(HoldsChunk(a, k));
        }
      } else {
        RefitKeepsCoherent(slabs, listOf, lists, largeAllocations, Repr, b);
        assert listOf == listOf[b := PartialList(c)];
      }
    }

    /** The empty slab b leaves its list; it is given back to the page
        allocator if its class has MAX_FREE_SLABS free slabs already, and
        goes to the tail of the free list otherwise. */
    method RefileEmpty(b: nat, c: nat)
      requires CoherentBut(b) && b in slabs && slabs[b].Valid(c) && slabs[b].Chunks() == {}
      requires listOf[b] == FullList(c) || listOf[b] == PartialList(c)
      modifies this`slabs, this`listOf, this`lists
      ensures Valid()
      ensures |old(lists.free[c])| >= MAX_FREE_SLABS ==>
        slabs == old(slabs) - {b} && listOf == old(listOf) - {b}
      ensures |old(lists.free[c])| < MAX_FREE_SLABS ==>
        slabs == old(slabs) && listOf == old(listOf)[b := FreeList(c)] && lists.free[c] == old(lists.free[c]) + [b]
    {
      Detach(b);
      assert lists.Get(FreeList(c)) == lists.free[c];
      var freeSlabs := |lists.free[c]|;
      if freeSlabs >= MAX_FREE_SLABS {
        Drop(b);
      } else {
        Attach(b, FreeList(c), false);
      }
    }

    /** A slab that was full and now has a free chunk moves to the tail of
        the partial list. */
    method Unfull(b: nat, c: nat)
      requires CoherentBut(b) && b in slabs && listOf[b] == FullList(c)
      requires slabs[b].Fits(PartialList(c))
      modifies this`listOf, this`lists
      ensures Valid() && listOf == old(listOf)[b := PartialList(c)]
    {
      ghost var listOf0, lists0 := listOf, lists;
      assert Coherent(slabs, listOf0, lists0, largeAllocations, b, Repr);
      var lists' := lists.Put(FullList(c), Without(lists.Get(FullList(c)), b));
      listOf, lists := listOf[b := PartialList(c)], lists'.Put(PartialList(c), Added(lists'.Get(PartialList(c)), b, false));
      MoveKeepsCoherent(slabs, listOf0, lists0, largeAllocations, Repr, b, PartialList(c));
    }

    /** kfree of the chunk at addr in slab b of size class c: the bit is
        cleared and the slab refiled as Refile says. Every other chunk held
        before still is; this one no longer is. */
    method FreeSmall(b: nat, c: nat, wasFull: bool, addr: nat)
      requires Valid() && HoldsAt(b, c, addr)
      requires listOf[b] == if wasFull then FullList(c) else PartialList(c)
      modifies this`slabs, this`listOf, this`lists, slabs[b], slabs[b].bitmap
      ensures Valid()
      ensures var idx := ChunkOf(b, c, addr);
        var empty := old(slabs[b].Chunks()) == {idx};
        && (b in slabs ==> slabs[b] == old(slabs[b]) && slabs[b].Chunks() == old(slabs[b].Chunks()) - {idx})
        && (empty && |old(lists.free[c])| >= MAX_FREE_SLABS ==>
              slabs == old(slabs) - {b} && listOf == old(listOf) - {b})
        && (empty && |old(lists.free[c])| < MAX_FREE_SLABS ==>
              && slabs == old(slabs) && listOf == old(listOf)[b := FreeList(c)]
              && lists.free[c] == old(lists.free[c]) + [b])
        && (!empty ==> slabs == old(slabs) && listOf == old(listOf)[b := PartialList(c)])
      ensures forall b' | b' in old(slabs) && b' != b :: slabs[b'].Chunks() == old(slabs[b'].Chunks())
      ensures !HoldsChunk(addr, c)
      ensures forall a: nat, k: nat :: old(HoldsChunk(a, k)) && a != addr ==> HoldsChunk(a, k)
    {
      assert FitsAt(slabs, listOf, b);
      ghost var idx := ChunkOf(b, c, addr);
      ghost var chunks := slabs[b].Chunks();
      ReleaseChunk(b, c, addr);
      assert chunks == {idx} <==> chunks - {idx} == {};
      Refile(b, c, wasFull);
    }

    /** kfree of addr. A page-aligned address is a large allocation, which
        is forgotten; any other lies in the slab on its page, whose list
        gives the size class, and is freed by FreeSmall. Every other chunk
        held before still is. */
    method Kfree(addr: nat)
      requires Valid()
      requires addr % MEM_PAGE_SIZE == 0 ==> addr in largeAllocations
      requires addr % MEM_PAGE_SIZE != 0 ==>
        var b := PageOf(addr);
        b in listOf && listOf[b] != NoList && HoldsChunk(addr, listOf[b].c)
      modifies this`slabs, this`listOf, this`lists, this`largeAllocations, Repr
      ensures Valid()
      ensures addr % MEM_PAGE_SIZE == 0 ==>
        && largeAllocations == old(largeAllocations) - {addr}
        && slabs == old(slabs) && listOf == old(listOf) && lists == old(lists)
      ensures addr % MEM_PAGE_SIZE != 0 ==>
        var b := PageOf(addr);
        var c := old(listOf[b]).c;
        var idx := ChunkOf(b, c, addr);
        var empty := old(slabs[b].Chunks()) == {idx};
        && largeAllocations == old(largeAllocations) && !HoldsChunk(addr, c)
        && (b in slabs ==> slabs[b] == old(slabs[b]) && slabs[b].Chunks() == old(slabs[b].Chunks()) - {idx})
        && (empty && |old(lists.free[c])| >= MAX_FREE_SLABS ==>
              slabs == old(slabs) - {b} && listOf == old(listOf) - {b})
        && (empty && |old(lists.free[c])| < MAX_FREE_SLABS ==>
              && slabs == old(slabs) && listOf == old(listOf)[b := FreeList(c)]
              && lists.free[c] == old(lists.free[c]) + [b])
        && (!empty ==> slabs == old(slabs) && listOf == old(listOf)[b := PartialList(c)])
      ensures forall a: nat, k: nat :: old(HoldsChunk(a, k)) && a != addr ==> HoldsChunk(a, k)
    {
      if addr % MEM_PAGE_SIZE == 0 {
        ForgetLarge(addr);
      } else {
        var b := PageOf(addr);
        var c, wasFull;
        match listOf[b] {
          case PartialList(k) => c, wasFull := k, false;
          case FullList(k) => c, wasFull := k, true;
        }
        FreeSmall(b, c, wasFull, addr);
      }
    }
  }
}
