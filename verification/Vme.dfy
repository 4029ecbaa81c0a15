// Address spaces on x86-64: building, changing and tearing down page-table trees.
module Vme {
  import opened Arith
  import opened Bits
  import opened PageTree

  datatype MapResult = Mapped | InvalidAddress | NotPageAligned | OutOfFrames | NotMapped | AlreadyMapped

  // The address space record: ptr is the root's entry, at level 0 of the walk.
  class AddrSpace {
    var ptr: nat
    ghost var tabs: map<Node, nat>

    constructor ()
      ensures ptr == 0 && tabs == map[]
    {
      ptr := 0;
      tabs := map[];
    }
  }

  ghost predicate AllFrames(avail: map<nat, seq<nat>>, mem: Memory) {
    forall f :: f in avail ==> Frame(f) && f !in mem && |avail[f]| == ENTRIES
  }

  // What the processor lets a user program do at an address, with ptr loaded as the root.
  ghost predicate UserReads(mem: Memory, ptr: nat, va: nat) {
    Granted(mem, BaseOf(ptr), 1, va, PTE_U)
  }

  ghost predicate UserWrites(mem: Memory, ptr: nat, va: nat) {
    UserReads(mem, ptr, va) && Granted(mem, BaseOf(ptr), 1, va, PTE_W)
  }

  // The same, read off the tree.
  ghost predicate RightsByLeaf(mem: Memory, ptr: nat, tabs: map<Node, nat>) {
    forall va: nat | UserAddr(va) ::
      && (UserReads(mem, ptr, va) <==> Lookup(mem, tabs, va) != None)
      && (UserWrites(mem, ptr, va) <==> Lookup(mem, tabs, va) != None && Write(Lookup(mem, tabs, va).value))
  }

  datatype Request = Request(va: nat, pa: nat, prot: nat)

  class Memories {
    const kpt: nat                 // the kernel's root table
    var mem: Memory
    var avail: map<nat, seq<nat>>  // frames pgalloc can return, with whatever they hold

    constructor (kpt: nat, mem: Memory, avail: map<nat, seq<nat>>)
      ensures this.kpt == kpt && this.mem == mem && this.avail == avail
    {
      this.kpt := kpt;
      this.mem := mem;
      this.avail := avail;
    }

    ghost predicate Ready()
      reads this
    {
      && kpt in mem && |mem[kpt]| == ENTRIES && !User(mem[kpt][0])
      && AllFrames(avail, mem)
    }

    ghost predicate Owns(s: AddrSpace)
      reads this, s
    {
      && Ready()
      && Node(1, 0) in s.tabs
      && s.ptr == Or(Or(s.tabs[Node(1, 0)], PTE_P), PTE_U)
      && kpt !in s.tabs.Values
      && Tree(mem, s.tabs, s.tabs[Node(1, 0)], mem[kpt][0])
    }

    // A zeroed frame, or 0 when none is left (pgallocz panics then).
    method Pgallocz() returns (base: nat)
      requires Ready()
      modifies this
      ensures Ready()
      ensures base == 0 ==> avail.Keys == {} && mem == old(mem) && avail == old(avail)
      ensures base != 0 ==> base in old(avail) && avail == old(avail) - {base} && mem == old(mem)[base := ZeroTable()]
      ensures base != 0 ==> Frame(base) && base !in old(mem)
    {
      if avail.Keys == {} { return 0; }
      base :| base in avail.Keys;
      var page := avail[base];
      avail := avail - {base};
      for i := 0 to ENTRIES
        invariant |page| == ENTRIES && forall j :: 0 <= j < i ==> page[j] == 0
      {
        page := page[i := 0];
      }
      assert page == ZeroTable();
      mem := mem[base := page];
    }

    method Pgfree(base: nat)
      requires base in mem && base !in avail
      modifies this
      ensures mem == old(mem) - {base} && avail == old(avail)[base := old(mem)[base]]
    {
      avail := avail[base := mem[base]];
      mem := mem - {base};
    }

    // Finds the level-4 entry of a user address, allocating the tables on the way.
    method Ptwalk(s: AddrSpace, addr: nat) returns (ok: bool, table: nat, index: nat)
      requires Owns(s) && UserAddr(addr)
      modifies this, s`tabs
      ensures Owns(s) && s.tabs[Node(1, 0)] == old(s.tabs[Node(1, 0)])
      ensures forall va: nat :: Lookup(mem, s.tabs, va) == Lookup(old(mem), old(s.tabs), va)
      ensures OnlyGrows(old(mem), old(s.tabs), old(avail.Keys), mem, s.tabs, avail.Keys)
      ensures PathOnly(old(s.tabs), s.tabs, addr)
      ensures ok ==> NodeAt(4, addr) in s.tabs && table == s.tabs[NodeAt(4, addr)] && index == Idx(4, addr)
      ensures !ok ==> avail.Keys == {} && NodeAt(4, addr) !in s.tabs
      ensures NodeAt(4, addr) in old(s.tabs) ==> mem == old(mem) && avail == old(avail) && s.tabs == old(s.tabs)
    {
      hide Tree, Present, Entry, BaseOf, Lookup, IndexOf, OnlyGrows, PathOnly;
      ghost var root := s.tabs[Node(1, 0)];
      RootEntry(mem, s.tabs, root, mem[kpt][0], s.ptr);
      UserTop(addr);
      GrewNothing(mem, s.tabs, avail.Keys, addr);
      var cur := BaseOf(s.ptr);
      var level := 1;
      while level < PTLEVELS
        invariant 1 <= level <= PTLEVELS
        invariant Owns(s) && s.tabs[Node(1, 0)] == root
        invariant NodeAt(level, addr) in s.tabs && cur == s.tabs[NodeAt(level, addr)]
        invariant forall va: nat :: Lookup(mem, s.tabs, va) == Lookup(old(mem), old(s.tabs), va)
        invariant OnlyGrows(old(mem), old(s.tabs), old(avail.Keys), mem, s.tabs, avail.Keys)
        invariant PathOnly(old(s.tabs), s.tabs, addr)
        invariant NodeAt(4, addr) in old(s.tabs) ==> mem == old(mem) && avail == old(avail) && s.tabs == old(s.tabs)
      {
        ghost var mem1, tabs1, avail1 := mem, s.tabs, avail.Keys;
        ok, cur := Descend(s, level, addr, cur);
        GrewMore(old(mem), old(s.tabs), old(avail.Keys), mem1, tabs1, avail1, mem, s.tabs, avail.Keys, addr);
        if !ok { return false, 0, 0; }
        level := level + 1;
      }
      IndexOfIsIdx(addr, 4);
      ok, table, index := true, cur, IndexOf(addr, 4);
    }

    // One level down, over a fresh table when there is none yet.
    method Descend(s: AddrSpace, level: nat, addr: nat, cur: nat) returns (ok: bool, next: nat)
      requires Owns(s) && UserAddr(addr) && 1 <= level < PTLEVELS
      requires NodeAt(level, addr) in s.tabs && cur == s.tabs[NodeAt(level, addr)]
      modifies this, s`tabs
      ensures Owns(s) && s.tabs[Node(1, 0)] == old(s.tabs[Node(1, 0)])
      ensures forall va: nat :: Lookup(mem, s.tabs, va) == Lookup(old(mem), old(s.tabs), va)
      ensures OnlyGrows(old(mem), old(s.tabs), old(avail.Keys), mem, s.tabs, avail.Keys)
      ensures PathOnly(old(s.tabs), s.tabs, addr)
      ensures ok ==> NodeAt(level + 1, addr) in s.tabs && next == s.tabs[NodeAt(level + 1, addr)]
      ensures !ok ==> avail.Keys == {} && NodeAt(4, addr) !in s.tabs
      ensures NodeAt(4, addr) in old(s.tabs) ==> mem == old(mem) && avail == old(avail) && s.tabs == old(s.tabs)
    {
      hide Tree, Present, Entry, BaseOf, Lookup, Pfx, Idx, IndexOf;
      ghost var root := s.tabs[Node(1, 0)];
      EntryFor(mem, s.tabs, root, mem[kpt][0], level, addr);
      IndexOfIsIdx(addr, level);
      IdxSmall(level, addr);
      var index := IndexOf(addr, level);
      if !Present(mem[cur][index]) {
        NoDeeper(mem, s.tabs, root, mem[kpt][0], level + 1, addr);
        ok, next := AddTable(s, level, addr, cur, index);
      } else {
        ok, next := true, BaseOf(mem[cur][index]);
      }
    }

    // The branch of the walk that links a fresh table.
    method AddTable(s: AddrSpace, level: nat, addr: nat, cur: nat, index: nat) returns (ok: bool, next: nat)
      requires Owns(s) && UserAddr(addr) && 1 <= level < PTLEVELS
      requires NodeAt(level, addr) in s.tabs && cur == s.tabs[NodeAt(level, addr)] && index == Idx(level, addr)
      requires NodeAt(level + 1, addr) !in s.tabs
      modifies this, s`tabs
      ensures Owns(s) && s.tabs[Node(1, 0)] == old(s.tabs[Node(1, 0)])
      ensures forall va: nat :: Lookup(mem, s.tabs, va) == Lookup(old(mem), old(s.tabs), va)
      ensures OnlyGrows(old(mem), old(s.tabs), old(avail.Keys), mem, s.tabs, avail.Keys)
      ensures PathOnly(old(s.tabs), s.tabs, addr)
      ensures ok ==> s.tabs == old(s.tabs)[NodeAt(level + 1, addr) := next]
      ensures !ok ==> avail.Keys == {} && s.tabs == old(s.tabs) && mem == old(mem)
    {
      hide Tree, Lookup, User, Entry;
      ghost var tabs, n, was := s.tabs, NodeAt(level, addr), mem;
      ghost var c := NodeAt(level + 1, addr);
      PfxStep(level, addr);
      UserTop(addr);
      next := Pgallocz();
      if next == 0 { return false, 0; }
      GrowTree(was, tabs, tabs[Node(1, 0)], was[kpt][0], n, index, next);
      KernelApart(was, tabs, kpt);
      mem := mem[cur := Put(mem[cur], index, Entry(next, PTE_W + PTE_U))];
      assert mem == Grown(was, tabs, n, index, next);
      s.tabs := tabs[c := next];
      ok := true;
      GrownOnly(was, tabs, n, index, next, c, old(avail.Keys));
    }

    // What the processor's walk makes of an address in this address space.
    ghost function Translate(s: AddrSpace, va: nat): Option<nat>
      reads this, s
    {
      Walk(mem, BaseOf(s.ptr), 1, va)
    }

    lemma TranslateIsLookup(s: AddrSpace, va: nat)
      requires Owns(s) && UserAddr(va)
      ensures Translate(s, va) == Lookup(mem, s.tabs, va)
    {
      RootEntry(mem, s.tabs, s.tabs[Node(1, 0)], mem[kpt][0], s.ptr);
      UserTop(va);
      WalkIsLookup(mem, s.tabs, s.tabs[Node(1, 0)], mem[kpt][0], 1, va);
    }

    // A new address space: the kernel's entry shared, and no user page mapped.
    method Protect(s: AddrSpace) returns (ok: bool)
      requires Ready() && kpt > 0
      modifies this, s
      ensures Ready()
      ensures !ok ==> avail.Keys == {} && avail == old(avail) && mem == old(mem) && s.ptr == old(s.ptr) && s.tabs == old(s.tabs)
      ensures ok ==> Owns(s) && s.tabs.Keys == {Node(1, 0)} && forall va: nat :: Lookup(mem, s.tabs, va) == None
      ensures ok ==> OnlyGrows(old(mem), map[], old(avail.Keys), mem, s.tabs, avail.Keys)
    {
      hide Present, User, Entry;
      var upt := Pgallocz();
      if upt == 0 { return false; }
      var cur: nat := 0;
      while cur != 0x0080_0000_0000
        invariant cur == 0 || cur == 0x0080_0000_0000
        invariant Ready() && avail == old(avail) - {upt}
        invariant upt in mem && mem.Keys == old(mem).Keys + {upt}
        invariant mem[upt] == if cur == 0 then ZeroTable() else Put(ZeroTable(), 0, mem[kpt][0])
        invariant forall f :: f in old(mem) ==> f in mem && mem[f] == old(mem)[f]
        decreases 0x0080_0000_0000 - cur
      {
        IndexOfIsIdx(cur, 1);
        var index := IndexOf(cur, 1);
        mem := mem[upt := Put(mem[upt], index, mem[kpt][index])];
        cur := cur + 0x80_0000_0000;
      }
      s.ptr := Or(Or(upt, PTE_P), PTE_U);
      s.tabs := map[Node(1, 0) := upt];
      ok := true;
      NewTree(mem, s.tabs, upt, mem[kpt][0]);
      assert s.tabs.Values == {upt};
    }

    method MapPage(s: AddrSpace, va: nat, pa: nat, prot: nat) returns (r: MapResult)
      requires Owns(s) && pa < 0x1_0000_0000_0000_0000
      modifies this, s`tabs
      ensures Owns(s)
      ensures OnlyGrows(old(mem), old(s.tabs), old(avail.Keys), mem, s.tabs, avail.Keys)
      ensures PathOnly(old(s.tabs), s.tabs, va)
      ensures r == InvalidAddress <==> !UserAddr(va)
      ensures r == NotPageAligned <==> UserAddr(va) && (va % PGSIZE != 0 || pa % PGSIZE != 0)
      ensures r == InvalidAddress || r == NotPageAligned ==> mem == old(mem) && avail == old(avail) && s.tabs == old(s.tabs)
      ensures r == OutOfFrames ==> avail.Keys == {} && NodeAt(4, va) !in s.tabs
      ensures r == NotMapped ==> prot == 0 && Lookup(old(mem), old(s.tabs), va) == None
      ensures r == AlreadyMapped ==> prot != 0 && Lookup(old(mem), old(s.tabs), va) != None
      ensures r != Mapped ==> forall vb: nat :: Lookup(mem, s.tabs, vb) == Lookup(old(mem), old(s.tabs), vb)
      ensures r == Mapped ==> (prot == 0 <==> Lookup(old(mem), old(s.tabs), va) != None)
      ensures r == Mapped ==> forall vb: nat ::
        Lookup(mem, s.tabs, vb) ==
          if vb / PGSIZE != va / PGSIZE then Lookup(old(mem), old(s.tabs), vb)
          else if prot == 0 then None
          else Some(LeafEntry(pa, And(prot, 2) != 0))
    {
      hide Tree, Present, Entry, BaseOf, LeafEntry, And, Leaf, NodeAt, Idx;
      if !UserAddr(va) { return InvalidAddress; }
      if va % PGSIZE != 0 || pa % PGSIZE != 0 { return NotPageAligned; }
      var ok, table, index := Ptwalk(s, va);
      if !ok { return OutOfFrames; }
      ghost var mid := mem;
      LeafIn(mem, s.tabs, s.tabs[Node(1, 0)], mem[kpt][0], va);
      if prot == 0 {
        if !Present(mem[table][index]) { return NotMapped; }
        AbsentIs();
        WriteLeaf(s, va, table, index, 0);
      } else {
        if Present(mem[table][index]) { return AlreadyMapped; }
        LeafEntryIs(pa, And(prot, 2) != 0);
        WriteLeaf(s, va, table, index, LeafEntry(pa, And(prot, 2) != 0));
      }
      ghost var mem1, avail1, tabs1 := mem, avail, s.tabs;
      ok, table, index := Ptwalk(s, va);
      assert mem == mem1 && avail == avail1 && s.tabs == tabs1;
      WroteOnly(old(mem), old(s.tabs), old(avail.Keys), mid, s.tabs, avail.Keys, mem, s.tabs[NodeAt(4, va)]);
      r := Mapped;
    }

    // Adds or removes the translation of one user page, with the rights the processor grants
    // on it.  No other page gains or loses a right.
    method Map(s: AddrSpace, va: nat, pa: nat, prot: nat) returns (r: MapResult)
      requires Owns(s) && pa < 0x1_0000_0000_0000_0000
      modifies this, s`tabs
      ensures Owns(s)
      ensures OnlyGrows(old(mem), old(s.tabs), old(avail.Keys), mem, s.tabs, avail.Keys)
      ensures PathOnly(old(s.tabs), s.tabs, va)
      ensures r == InvalidAddress <==> !UserAddr(va)
      ensures r == NotPageAligned <==> UserAddr(va) && (va % PGSIZE != 0 || pa % PGSIZE != 0)
      ensures r == InvalidAddress || r == NotPageAligned ==> mem == old(mem) && avail == old(avail) && s.tabs == old(s.tabs)
      ensures r == OutOfFrames ==> avail.Keys == {} && NodeAt(4, va) !in s.tabs
      ensures r == NotMapped ==> prot == 0 && Lookup(old(mem), old(s.tabs), va) == None
      ensures r == AlreadyMapped ==> prot != 0 && Lookup(old(mem), old(s.tabs), va) != None
      ensures r != Mapped ==> forall vb: nat :: Lookup(mem, s.tabs, vb) == Lookup(old(mem), old(s.tabs), vb)
      ensures r == Mapped ==> (prot == 0 <==> Lookup(old(mem), old(s.tabs), va) != None)
      ensures r == Mapped ==> forall vb: nat ::
        Lookup(mem, s.tabs, vb) ==
          if vb / PGSIZE != va / PGSIZE then Lookup(old(mem), old(s.tabs), vb)
          else if prot == 0 then None
          else Some(LeafEntry(pa, And(prot, 2) != 0))
      ensures r == Mapped && prot != 0 ==> forall vb: nat :: vb / PGSIZE == va / PGSIZE ==>
        UserReads(mem, s.ptr, vb) && (UserWrites(mem, s.ptr, vb) <==> And(prot, 2) != 0)
      ensures r == Mapped && prot == 0 ==> forall vb: nat :: vb / PGSIZE == va / PGSIZE ==> !UserReads(mem, s.ptr, vb)
      ensures forall vb: nat :: UserAddr(vb) && (r == Mapped ==> vb / PGSIZE != va / PGSIZE) ==>
        && UserReads(mem, s.ptr, vb) == UserReads(old(mem), s.ptr, vb)
        && UserWrites(mem, s.ptr, vb) == UserWrites(old(mem), s.ptr, vb)
    {
      hide Tree, Lookup, LeafEntry, Granted, UserReads, UserWrites, And, OnlyGrows;
      Rights(s);
      r := MapPage(s, va, pa, prot);
      Rights(s);
      if r == Mapped {
        SamePageUser(va);
        if prot != 0 { LeafEntryIs(pa, And(prot, 2) != 0); }
      }
    }

    // The root entry itself grants everything, so the rights are those of the tree's leaves.
    lemma Rights(s: AddrSpace)
      requires Owns(s)
      ensures RightsByLeaf(mem, s.ptr, s.tabs)
    {
      RootEntry(mem, s.tabs, s.tabs[Node(1, 0)], mem[kpt][0], s.ptr);
      forall va: nat | UserAddr(va)
        ensures UserReads(mem, s.ptr, va) <==> Lookup(mem, s.tabs, va) != None
        ensures UserWrites(mem, s.ptr, va) <==> Lookup(mem, s.tabs, va) != None && Write(Lookup(mem, s.tabs, va).value)
      {
        hide Tree, Lookup, Granted, Present, User, BaseOf;
        UserTop(va);
        GrantedByLeaf(mem, s.tabs, s.tabs[Node(1, 0)], mem[kpt][0], 1, va);
      }
    }

    // Frees the table and, below its present user entries, every table of the tree; n is the
    // table's place in the tree and mem0 the memory before anything was freed.
    method Teardown(level: nat, pt: nat, ghost n: Node, ghost tabs: map<Node, nat>, ghost mem0: Memory, ghost root: nat, ghost kentry: nat)
      requires 1 <= level <= PTLEVELS + 1
      requires Tree(mem0, tabs, root, kentry)
      requires level <= PTLEVELS ==> n in tabs && n.level == level && pt == tabs[n]
      requires level <= PTLEVELS ==> Intact(mem, mem0, tabs, n) && Sub(tabs, n) !! avail.Keys
      modifies this
      ensures level <= PTLEVELS ==> mem == old(mem) - Sub(tabs, n) && avail.Keys == old(avail.Keys) + Sub(tabs, n)
      ensures level > PTLEVELS ==> mem == old(mem) && avail == old(avail)
      ensures forall f :: f in avail ==> if f in old(avail) then avail[f] == old(avail)[f] else f in old(mem) && avail[f] == old(mem)[f]
      decreases PTLEVELS + 1 - level, 1
    {
      hide Tree, Present, User, Entry, BaseOf, Below, Sub;
      if level > PTLEVELS { return; }
      SubFacts(mem0, tabs, root, kentry, n);
      for index: nat := 0 to ENTRIES
        invariant pt in mem && mem[pt] == mem0[pt] && |mem[pt]| == ENTRIES
        invariant mem == old(mem) - SubBelow(tabs, n, index)
        invariant avail.Keys == old(avail.Keys) + SubBelow(tabs, n, index)
        invariant forall f :: f in avail ==> if f in old(avail) then avail[f] == old(avail)[f] else f in old(mem) && avail[f] == old(mem)[f]
      {
        SubStep(mem0, tabs, root, kentry, n, index);
        ChildIntact(mem, old(mem), mem0, tabs, root, kentry, n, index);
        TeardownSlot(level, mem[pt][index], n, index, tabs, mem0, root, kentry);
      }
      SubAll(mem0, tabs, root, kentry, n);
      Pgfree(pt);
    }

    // The loop body: one entry of the table at n.
    method TeardownSlot(level: nat, e: nat, ghost n: Node, ghost index: nat, ghost tabs: map<Node, nat>, ghost mem0: Memory, ghost root: nat, ghost kentry: nat)
      requires 1 <= level <= PTLEVELS && index < ENTRIES
      requires Tree(mem0, tabs, root, kentry) && n in tabs && n.level == level
      requires tabs[n] in mem0 && |mem0[tabs[n]]| == ENTRIES && e == mem0[tabs[n]][index]
      requires Intact(mem, mem0, tabs, Child(n, index)) && Sub(tabs, Child(n, index)) !! avail.Keys
      requires Child(n, index) !in tabs ==> Sub(tabs, Child(n, index)) == {}
      modifies this
      ensures mem == old(mem) - Sub(tabs, Child(n, index)) && avail.Keys == old(avail.Keys) + Sub(tabs, Child(n, index))
      ensures forall f :: f in avail ==> if f in old(avail) then avail[f] == old(avail)[f] else f in old(mem) && avail[f] == old(mem)[f]
      decreases PTLEVELS + 1 - level, 0
    {
      hide Tree, Present, User, Entry, BaseOf, Below, Sub;
      TeardownEntry(mem0, tabs, root, kentry, n, index);
      if Present(e) && User(e) {
        Teardown(level + 1, BaseOf(e), Child(n, index), tabs, mem0, root, kentry);
      }
    }

    // Frees every table of the address space and nothing else.
    method Unprotect(s: AddrSpace)
      requires Owns(s)
      modifies this
      ensures Ready()
      ensures mem == old(mem) - s.tabs.Values
      ensures avail.Keys == old(avail.Keys) + s.tabs.Values
    {
      hide Tree, Present, User, Entry, BaseOf, Below, Sub;
      ghost var root := s.tabs[Node(1, 0)];
      RootEntry(mem, s.tabs, root, mem[kpt][0], s.ptr);
      if Present(s.ptr) && User(s.ptr) {
        RootSub(mem, s.tabs, root, mem[kpt][0]);
        ValuesInMemory(mem, s.tabs, root, mem[kpt][0]);
        Teardown(1, BaseOf(s.ptr), Node(1, 0), s.tabs, mem, root, mem[kpt][0]);
        FreedFrames(old(mem), old(avail), s.tabs, root, old(mem)[kpt][0], avail);
      }
    }

    // A whole life of an address space: whatever was mapped and unmapped in between, tearing
    // it down gives every frame back and leaves all other memory as it was.
    method Lifecycle(requests: seq<Request>) returns (ok: bool)
      requires Ready() && kpt > 0
      requires forall k :: 0 <= k < |requests| ==> requests[k].pa < 0x1_0000_0000_0000_0000
      modifies this
      ensures Ready() && avail.Keys == old(avail.Keys) && mem == old(mem)
    {
      hide Tree, Present, User, Entry, BaseOf, Lookup, Walk;
      var s := new AddrSpace();
      FramesApart(avail, mem);
      ok := Protect(s);
      if !ok { return; }
      var k := 0;
      while k < |requests|
        invariant 0 <= k <= |requests| && Owns(s)
        invariant OnlyGrows(old(mem), map[], old(avail.Keys), mem, s.tabs, avail.Keys)
      {
        ghost var mem1, tabs1, avail1 := mem, s.tabs, avail.Keys;
        var r := Map(s, requests[k].va, requests[k].pa, requests[k].prot);
        GrowsOn(old(mem), old(avail.Keys), mem1, tabs1, avail1, mem, s.tabs, avail.Keys);
        k := k + 1;
      }
      ghost var mem1, tabs1, avail1 := mem, s.tabs, avail.Keys;
      ValuesInMemory(mem, s.tabs, s.tabs[Node(1, 0)], mem[kpt][0]);
      FramesApart(avail, mem);
      Unprotect(s);
      TornDown(old(mem), old(avail.Keys), mem1, tabs1, avail1);
    }

    method WriteLeaf(s: AddrSpace, va: nat, table: nat, index: nat, e: nat)
      requires Owns(s) && UserAddr(va) && Leaf(e)
      requires NodeAt(4, va) in s.tabs && table == s.tabs[NodeAt(4, va)] && index == Idx(4, va)
      modifies this`mem
      ensures Owns(s)
      ensures mem.Keys == old(mem).Keys && forall f :: f in mem && f != table ==> mem[f] == old(mem)[f]
      ensures forall vb: nat ::
        Lookup(mem, s.tabs, vb) ==
          if vb / PGSIZE == va / PGSIZE then (if Present(e) then Some(e) else None) else Lookup(old(mem), s.tabs, vb)
    {
      hide Tree, Present, User, Entry, BaseOf, Leaf, NodeAt, Idx;
      StoreLeaf(mem, s.tabs, s.tabs[Node(1, 0)], mem[kpt][0], va, e);
      KernelApart(mem, s.tabs, kpt);
      mem := mem[table := Put(mem[table], index, e)];
      assert mem == Stored(old(mem), table, index, e);
    }
  }

  // Tables are added and never moved; a frame that was not one of them keeps its content;
  // frames only pass from the free pool to the tree.
  ghost predicate OnlyGrows(mem: Memory, tabs: map<Node, nat>, avail: set<nat>, mem': Memory, tabs': map<Node, nat>, avail': set<nat>) {
    && (forall n :: n in tabs ==> n in tabs' && tabs'[n] == tabs[n])
    && (forall f :: f in mem && f !in tabs.Values ==> f in mem' && mem'[f] == mem[f])
    && avail' + tabs'.Values == avail + tabs.Values
    && mem'.Keys + avail' == mem.Keys + avail
  }

  lemma SamePageUser(va: nat)
    requires UserAddr(va)
    ensures forall vb: nat :: vb / PGSIZE == va / PGSIZE ==> UserAddr(vb)
  {}

  // New tables stand on the path to the address only.
  ghost predicate PathOnly(tabs: map<Node, nat>, tabs': map<Node, nat>, va: nat) {
    forall n :: n in tabs' && n !in tabs ==> 2 <= n.level <= PTLEVELS && n == NodeAt(n.level, va)
  }

  lemma GrewNothing(mem: Memory, tabs: map<Node, nat>, avail: set<nat>, va: nat)
    ensures OnlyGrows(mem, tabs, avail, mem, tabs, avail) && PathOnly(tabs, tabs, va)
  {}

  lemma GrewMore(mem0: Memory, tabs0: map<Node, nat>, avail0: set<nat>, mem: Memory, tabs: map<Node, nat>, avail: set<nat>,
                 mem': Memory, tabs': map<Node, nat>, avail': set<nat>, va: nat)
    requires OnlyGrows(mem0, tabs0, avail0, mem, tabs, avail) && PathOnly(tabs0, tabs, va)
    requires OnlyGrows(mem, tabs, avail, mem', tabs', avail') && PathOnly(tabs, tabs', va)
    requires avail0 !! mem0.Keys
    ensures OnlyGrows(mem0, tabs0, avail0, mem', tabs', avail') && PathOnly(tabs0, tabs', va)
  {}

  lemma GrownOnly(mem: Memory, tabs: map<Node, nat>, n: Node, i: nat, f: nat, c: Node, avail: set<nat>)
    requires n in tabs && tabs[n] in mem && i < |mem[tabs[n]]| && c !in tabs
    requires f in avail && f !in mem
    ensures OnlyGrows(mem, tabs, avail, Grown(mem, tabs, n, i, f), tabs[c := f], avail - {f})
  {
    var tabs' := tabs[c := f];
    assert tabs'.Values == tabs.Values + {f} by {
      forall v | v in tabs.Values + {f} ensures v in tabs'.Values {
        if v == f { assert tabs'[c] == f; }
        else { var m :| m in tabs && tabs[m] == v; assert tabs'[m] == v; }
      }
    }
    assert tabs[n] in tabs.Values;
  }

  lemma RootEntry(mem: Memory, tabs: map<Node, nat>, root: nat, kentry: nat, ptr: nat)
    requires Tree(mem, tabs, root, kentry) && ptr == Or(Or(root, PTE_P), PTE_U)
    ensures BaseOf(ptr) == root && Present(ptr) && User(ptr)
  {
    assert TableOk(mem, tabs, kentry, Node(1, 0));
    EntryIs(root, PTE_U);
  }

  lemma KernelApart(mem: Memory, tabs: map<Node, nat>, kpt: nat)
    requires kpt !in tabs.Values
    ensures forall n :: n in tabs ==> tabs[n] != kpt
  {}

  // A root table with nothing but the kernel's entry.
  lemma NewTree(mem: Memory, tabs: map<Node, nat>, upt: nat, kentry: nat)
    requires !User(kentry) && tabs == map[Node(1, 0) := upt] && Frame(upt)
    requires upt in mem && mem[upt] == Put(ZeroTable(), 0, kentry)
    ensures Tree(mem, tabs, upt, kentry)
    ensures forall va: nat :: Lookup(mem, tabs, va) == None
  {
    hide Present, User, Entry;
    assert TableOk(mem, tabs, kentry, Node(1, 0));
    forall va: nat ensures Lookup(mem, tabs, va) == None {
      NodeLevel(4, va);
    }
  }

  lemma LeafIn(mem: Memory, tabs: map<Node, nat>, root: nat, kentry: nat, va: nat)
    requires Tree(mem, tabs, root, kentry) && NodeAt(4, va) in tabs
    ensures var t := tabs[NodeAt(4, va)]; t in mem && |mem[t]| == ENTRIES && Idx(4, va) < ENTRIES
    ensures Lookup(mem, tabs, va) != None <==> Present(mem[tabs[NodeAt(4, va)]][Idx(4, va)])
    ensures Leaf(0)
  {
    IdxSmall(4, va);
    assert TableOk(mem, tabs, kentry, NodeAt(4, va));
  }

  lemma WroteOnly(mem: Memory, tabs: map<Node, nat>, avail: set<nat>, mid: Memory, tabs': map<Node, nat>, avail': set<nat>, mem': Memory, t: nat)
    requires OnlyGrows(mem, tabs, avail, mid, tabs', avail')
    requires t in tabs'.Values && avail !! mem.Keys
    requires mem'.Keys == mid.Keys && forall f :: f in mid && f != t ==> mem'[f] == mid[f]
    ensures OnlyGrows(mem, tabs, avail, mem', tabs', avail')
  {
    assert t in avail' + tabs'.Values;
  }

  lemma FreedFrames(mem: Memory, avail: map<nat, seq<nat>>, tabs: map<Node, nat>, root: nat, kentry: nat, avail': map<nat, seq<nat>>)
    requires Tree(mem, tabs, root, kentry) && AllFrames(avail, mem)
    requires avail'.Keys == avail.Keys + tabs.Values
    requires forall f :: f in avail' ==> if f in avail then avail'[f] == avail[f] else f in mem && avail'[f] == mem[f]
    ensures AllFrames(avail', mem - tabs.Values)
  {
    forall f | f in avail' ensures Frame(f) && f !in mem - tabs.Values && |avail'[f]| == ENTRIES {
      if f !in avail {
        var n :| n in tabs && tabs[n] == f;
        assert TableOk(mem, tabs, kentry, n);
      }
    }
  }

  lemma FramesApart(avail: map<nat, seq<nat>>, mem: Memory)
    requires AllFrames(avail, mem)
    ensures avail.Keys !! mem.Keys
  {}

  // Growth from an empty tree, continued.
  lemma GrowsOn(mem0: Memory, avail0: set<nat>, mem: Memory, tabs: map<Node, nat>, avail: set<nat>,
                mem': Memory, tabs': map<Node, nat>, avail': set<nat>)
    requires avail0 !! mem0.Keys
    requires OnlyGrows(mem0, map[], avail0, mem, tabs, avail) && OnlyGrows(mem, tabs, avail, mem', tabs', avail')
    ensures OnlyGrows(mem0, map[], avail0, mem', tabs', avail')
  {
    assert tabs.Values <= avail0;
  }

  lemma TornDown(mem0: Memory, avail0: set<nat>, mem: Memory, tabs: map<Node, nat>, avail: set<nat>)
    requires avail0 !! mem0.Keys && avail !! mem.Keys && tabs.Values <= mem.Keys
    requires OnlyGrows(mem0, map[], avail0, mem, tabs, avail)
    ensures mem - tabs.Values == mem0 && avail + tabs.Values == avail0
  {
    assert tabs.Values <= avail0;
    assert (mem - tabs.Values).Keys == mem0.Keys;
  }
}
