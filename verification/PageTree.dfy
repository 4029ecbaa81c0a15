// Four-level x86-64 page tables in raw memory (section 4.5 of the Intel SDM, Volume 3A):
// what a tree of table frames means, as the address translation the processor performs.
module PageTree {
  import opened Arith
  import opened Bits

  const PTE_P: nat := 1
  const PTE_W: nat := 2
  const PTE_U: nat := 4
  const PGSIZE: nat := 4096
  const ENTRIES: nat := 512
  const PTLEVELS: nat := 4
  const USER_START: nat := 0x1000_0000_0000
  const USER_END: nat := 0x1080_0000_0000

  datatype Option<T> = None | Some(value: T)

  // Physical memory: the frames in use as tables, each with its 512 entries.
  type Memory = map<nat, seq<nat>>

  predicate Present(e: nat) { And(e, PTE_P) != 0 }

  predicate User(e: nat) { And(e, PTE_U) != 0 }

  predicate Write(e: nat) { And(e, PTE_W) != 0 }

  // e & ~(pgsize - 1) on 64-bit words.
  function BaseOf(e: nat): nat { And(e, 0xffff_ffff_ffff_f000) }

  // An entry naming a frame, with its flag bits or-ed in.
  function Entry(frame: nat, flags: nat): nat { Or(Or(frame, PTE_P), flags) }

  // The mask and shift of a level's index field.
  function Mask(level: nat): nat
    requires 1 <= level <= 4
  {
    if level == 1 then 0xff8000000000 else if level == 2 then 0x007fc0000000
    else if level == 3 then 0x00003fe00000 else 0x0000001ff000
  }

  function Shift(level: nat): nat
    requires 1 <= level <= 4
  {
    if level == 1 then 39 else if level == 2 then 30 else if level == 3 then 21 else 12
  }

  function IndexOf(addr: nat, level: nat): nat
    requires 1 <= level <= 4
  {
    Shr(And(addr, Mask(level)), Shift(level))
  }

  // The number of bytes one entry of a table at the level covers.
  function Span(level: nat): nat
    requires level <= 4
  {
    if level == 4 then 0x1000 else if level == 3 then 0x20_0000 else if level == 2 then 0x4000_0000
    else if level == 1 then 0x80_0000_0000 else 0x1_0000_0000_0000
  }

  function Idx(level: nat, va: nat): nat
    requires 1 <= level <= 4
  {
    (va / Span(level)) % ENTRIES
  }

  function Pfx(level: nat, va: nat): nat
    requires 1 <= level <= 5
  {
    va / Span(level - 1)
  }

  lemma Pow2Spans()
    ensures Pow2(9) == 512 && Pow2(12) == 0x1000 && Pow2(21) == 0x20_0000
    ensures Pow2(30) == 0x4000_0000 && Pow2(39) == 0x80_0000_0000
  {
    assert Pow2(6) == 64;
    assert Pow2(3) == 8;
    Pow2Add(6, 3);
    Pow2Add(9, 3);
    Pow2Add(12, 9);
    Pow2Add(21, 9);
    Pow2Add(30, 9);
  }

  // Masking and shifting extracts the level's nine bits.
  lemma IndexOfIsIdx(addr: nat, level: nat)
    requires 1 <= level <= 4
    ensures IndexOf(addr, level) == Idx(level, addr)
  {
    Pow2Spans();
    var s := Shift(level);
    assert Pow2(s) == Span(level);
    assert Mask(level) == (Pow2(9) - 1) * Pow2(s);
    AndField(addr, 9, s);
    var x := Shr(addr, s) % Pow2(9);
    DivUnique(x * Pow2(s), Pow2(s), x, 0);
  }

  lemma PresentIs(e: nat)
    ensures Present(e) <==> e % 2 == 1
  {
    AndBit(e, 0);
    assert Pow2(0) == 1 && Shr(e, 0) == e;
  }

  lemma UserIs(e: nat)
    ensures User(e) <==> (e / 4) % 2 == 1
  {
    AndBit(e, 2);
    assert Pow2(2) == 4;
  }

  lemma WriteIs(e: nat)
    ensures Write(e) <==> (e / 2) % 2 == 1
  {
    AndBit(e, 1);
    assert Pow2(1) == 2;
  }

  // Where an address goes next is decided by its index.
  lemma PfxStep(level: nat, va: nat)
    requires 1 <= level <= 4
    ensures Pfx(level + 1, va) == Pfx(level, va) * ENTRIES + Idx(level, va) && Idx(level, va) < ENTRIES
  {}

  lemma UserTop(va: nat)
    requires USER_START <= va < USER_END
    ensures Pfx(1, va) == 0 && Idx(1, va) == 32 && Pfx(2, va) == 32
  {}

  lemma BaseOfIs(e: nat)
    requires e < 0x1_0000_0000_0000_0000
    ensures BaseOf(e) == e - e % PGSIZE
  {
    Pow2Spans();
    Pow2Add(30, 9);
    Pow2Add(39, 12);
    Pow2Add(51, 1);
    assert Pow2(1) == 2;
    AndField(e, 52, 12);
    var q := Shr(e, 12);
    assert q < Pow2(52);
    DivUnique(q, Pow2(52), 0, q);
  }

  // Frames are page-aligned, so the flags only fill their low bits.
  lemma EntryIs(frame: nat, flags: nat)
    requires frame % PGSIZE == 0 && flags < 8 && flags % 2 == 0 && frame + 8 <= 0x1_0000_0000_0000_0000
    ensures Entry(frame, flags) == frame + 1 + flags
    ensures Present(Entry(frame, flags)) && BaseOf(Entry(frame, flags)) == frame
    ensures User(Entry(frame, flags)) <==> flags >= 4
    ensures Write(Entry(frame, flags)) <==> flags % 4 >= 2
  {
    hide Present, User, Write, BaseOf, Entry;
    var q := frame / PGSIZE;
    var e := frame + 1 + flags;
    EntrySum(q, flags);
    FlagArith(q, flags);
    assert frame == q * PGSIZE;
    PresentIs(e);
    UserIs(e);
    WriteIs(e);
    BaseOfIs(e);
  }

  lemma FlagArith(q: nat, flags: nat)
    requires flags < 8 && flags % 2 == 0
    ensures var e := q * PGSIZE + 1 + flags;
            e % 2 == 1 && ((e / 4) % 2 == 1 <==> flags >= 4) && e - e % PGSIZE == q * PGSIZE
            && ((e / 2) % 2 == 1 <==> flags % 4 >= 2)
  {
    var e := q * PGSIZE + 1 + flags;
    DivUnique(e, PGSIZE, q, 1 + flags);
    DivUnique(e, 2, q * 2048 + flags / 2, 1);
    DivUnique(q * 2048 + flags / 2, 2, q * 1024 + flags / 4, (flags / 2) % 2);
    var h := if flags >= 4 then 1 else 0;
    DivUnique(e, 4, q * 1024 + h, 1 + flags - 4 * h);
    DivUnique(q * 1024 + h, 2, q * 512, h);
  }

  lemma EntrySum(q: nat, flags: nat)
    requires flags < 8 && flags % 2 == 0
    ensures Entry(q * PGSIZE, flags) == q * PGSIZE + 1 + flags
  {
    hide Or;
    Pow2Spans();
    OrLow(q, 0, 1, 12);
    OrLow(q, 1, flags, 12);
    OrZero(1);
    OrFlags(flags);
  }

  lemma OrZero(a: nat)
    ensures Or(0, a) == a
  {}

  lemma OrFlags(flags: nat)
    requires flags < 8 && flags % 2 == 0
    ensures Or(1, flags) == 1 + flags
  {
    OrDisjoint(flags / 2, 1, 1);
    OrSymmetric(1, flags);
    assert Pow2(1) == 2;
  }

  // The entry map writes for a data page.
  function LeafEntry(pa: nat, write: bool): nat {
    Or(Or(Or(pa, PTE_P), PTE_U), if write then PTE_W else 0)
  }

  lemma LeafEntryIs(pa: nat, write: bool)
    requires pa % PGSIZE == 0 && pa + 8 <= 0x1_0000_0000_0000_0000
    ensures LeafEntry(pa, write) == pa + (if write then 7 else 5)
    ensures Leaf(LeafEntry(pa, write)) && Present(LeafEntry(pa, write))
    ensures BaseOf(LeafEntry(pa, write)) == pa && User(LeafEntry(pa, write)) && (Write(LeafEntry(pa, write)) <==> write)
  {
    hide Present, User, Write, BaseOf, Or;
    var flags := if write then 6 else 4;
    EntryIs(pa, 4);
    EntryIs(pa, flags);
    Pow2Spans();
    var q := pa / PGSIZE;
    assert pa == q * PGSIZE;
    OrLow(q, 5, if write then 2 else 0, 12);
    OrFives();
    DivUnique(pa + 1 + flags, PGSIZE, q, 1 + flags);
  }

  lemma OrFives()
    ensures Or(5, 2) == 7 && Or(5, 0) == 5
  {
    assert Or(2, 1) == 3;
  }

  // Absent, or a user page with its frame in the upper bits.
  ghost predicate Leaf(e: nat) {
    e == 0 || ((e % PGSIZE == 5 || e % PGSIZE == 7) && e < 0x1_0000_0000_0000_0000)
  }

  // A place in the tree: the level of a table and the address bits that lead to it.
  datatype Node = Node(level: nat, prefix: nat)

  function Child(n: Node, i: nat): Node { Node(n.level + 1, n.prefix * ENTRIES + i) }

  function NodeAt(level: nat, va: nat): Node
    requires 1 <= level <= 5
  {
    Node(level, Pfx(level, va))
  }

  // What the i-th entry of the table at n holds: a link to the child table, the shared
  // kernel entry, a leaf, or nothing.
  ghost predicate EntryOk(tabs: map<Node, nat>, kentry: nat, n: Node, i: nat, e: nat) {
    if n.level == PTLEVELS then Leaf(e)
    else if Child(n, i) in tabs then e == Entry(tabs[Child(n, i)], PTE_W + PTE_U)
    else if n.level == 1 && i == 0 then e == kentry
    else e == 0
  }

  ghost predicate Frame(f: nat) {
    0 < f && f % PGSIZE == 0 && f + PGSIZE <= 0x1_0000_0000_0000_0000
  }

  ghost predicate TableOk(mem: Memory, tabs: map<Node, nat>, kentry: nat, n: Node) {
    && n in tabs && 1 <= n.level <= PTLEVELS
    && Frame(tabs[n]) && tabs[n] in mem && |mem[tabs[n]]| == ENTRIES
    && (n.level == 1 ==> n.prefix == 0)
    && (n.level > 1 ==> n.prefix > 0 && Node(n.level - 1, n.prefix / ENTRIES) in tabs)
    && forall i: nat :: i < ENTRIES ==> EntryOk(tabs, kentry, n, i, mem[tabs[n]][i])
  }

  // tabs names the frame of every table of the tree, each frame once.
  ghost predicate Tree(mem: Memory, tabs: map<Node, nat>, root: nat, kentry: nat) {
    && !User(kentry)
    && Node(1, 0) in tabs && tabs[Node(1, 0)] == root
    && (forall n :: n in tabs ==> TableOk(mem, tabs, kentry, n))
    && forall n, m :: n in tabs && m in tabs && n != m ==> tabs[n] != tabs[m]
  }

  // The processor's walk from a table: the leaf entry that translates va, if any.
  function Walk(mem: Memory, table: nat, level: nat, va: nat): Option<nat>
    requires 1 <= level <= 4
    decreases 4 - level
  {
    if table !in mem || |mem[table]| != ENTRIES then None
    else
      var e := mem[table][Idx(level, va)];
      if !Present(e) then None
      else if level == 4 then Some(e)
      else Walk(mem, BaseOf(e), level + 1, va)
  }

  // The same, read off the tree.
  ghost function Lookup(mem: Memory, tabs: map<Node, nat>, va: nat): Option<nat> {
    var n := NodeAt(4, va);
    if n in tabs && tabs[n] in mem && |mem[tabs[n]]| == ENTRIES && Present(mem[tabs[n]][Idx(4, va)])
    then Some(mem[tabs[n]][Idx(4, va)]) else None
  }

  predicate UserAddr(va: nat) { USER_START <= va < USER_END }

  lemma AbsentIs()
    ensures !Present(0) && !User(0)
  {
    PresentIs(0);
    UserIs(0);
  }

  // The entry a user address selects in a table of the tree.
  lemma EntryFor(mem: Memory, tabs: map<Node, nat>, root: nat, kentry: nat, level: nat, va: nat)
    requires Tree(mem, tabs, root, kentry) && UserAddr(va) && 1 <= level < 4
    requires NodeAt(level, va) in tabs
    ensures var t := tabs[NodeAt(level, va)];
            && t in mem && |mem[t]| == ENTRIES
            && var e := mem[t][Idx(level, va)];
            && (NodeAt(level + 1, va) in tabs <==> Present(e))
            && (NodeAt(level + 1, va) in tabs ==> BaseOf(e) == tabs[NodeAt(level + 1, va)] && User(e) && Write(e))
  {
    hide Present, User, Write, BaseOf, Entry;
    var n := NodeAt(level, va);
    var i := Idx(level, va);
    PfxStep(level, va);
    UserTop(va);
    assert TableOk(mem, tabs, kentry, n);
    assert EntryOk(tabs, kentry, n, i, mem[tabs[n]][i]);
    assert Child(n, i) == NodeAt(level + 1, va);
    AbsentIs();
    if Child(n, i) in tabs {
      assert TableOk(mem, tabs, kentry, Child(n, i));
      EntryIs(tabs[Child(n, i)], PTE_W + PTE_U);
    }
  }

  // The processor's translation is the tree's.
  lemma {:induction false} WalkIsLookup(mem: Memory, tabs: map<Node, nat>, root: nat, kentry: nat, level: nat, va: nat)
    requires Tree(mem, tabs, root, kentry) && UserAddr(va) && 1 <= level <= 4
    requires NodeAt(level, va) in tabs
    ensures Walk(mem, tabs[NodeAt(level, va)], level, va) == Lookup(mem, tabs, va)
    decreases 4 - level
  {
    hide Present, BaseOf, Entry, Pfx, Idx;
    assert TableOk(mem, tabs, kentry, NodeAt(level, va));
    PfxStep(level, va);
    if level < 4 {
      EntryFor(mem, tabs, root, kentry, level, va);
      if NodeAt(level + 1, va) in tabs {
        WalkIsLookup(mem, tabs, root, kentry, level + 1, va);
      } else {
        NoDeeper(mem, tabs, root, kentry, level + 1, va);
      }
    }
  }

  // What the processor grants: the walk from a table reaches a leaf and every entry it passes
  // has the bit (section 4.6 of the Intel SDM, Volume 3A).
  ghost predicate Granted(mem: Memory, table: nat, level: nat, va: nat, bit: nat)
    requires 1 <= level <= 4
    decreases 4 - level
  {
    && table in mem && |mem[table]| == ENTRIES
    && var e := mem[table][Idx(level, va)];
       Present(e) && And(e, bit) != 0 && (level < 4 ==> Granted(mem, BaseOf(e), level + 1, va, bit))
  }

  // A present leaf is a user page.
  lemma LeafIsUser(e: nat)
    requires Leaf(e) && Present(e)
    ensures User(e)
  {
    hide Present, User;
    AbsentIs();
    UserIs(e);
    var q, f := e / PGSIZE, e % PGSIZE;
    assert e == q * PGSIZE + f && (f == 5 || f == 7);
    FlagArith(q, f - 1);
  }

  // Every link on the way is writable and user, so the leaf alone decides the rights.
  lemma {:induction false} GrantedByLeaf(mem: Memory, tabs: map<Node, nat>, root: nat, kentry: nat, level: nat, va: nat)
    requires Tree(mem, tabs, root, kentry) && UserAddr(va) && 1 <= level <= 4
    requires NodeAt(level, va) in tabs
    ensures Granted(mem, tabs[NodeAt(level, va)], level, va, PTE_U) <==> Lookup(mem, tabs, va) != None
    ensures Granted(mem, tabs[NodeAt(level, va)], level, va, PTE_W) <==>
      Lookup(mem, tabs, va) != None && Write(Lookup(mem, tabs, va).value)
    decreases 4 - level
  {
    hide Present, BaseOf, Entry, Pfx, Idx, And, Leaf;
    assert TableOk(mem, tabs, kentry, NodeAt(level, va));
    PfxStep(level, va);
    if level < 4 {
      EntryFor(mem, tabs, root, kentry, level, va);
      if NodeAt(level + 1, va) in tabs {
        GrantedByLeaf(mem, tabs, root, kentry, level + 1, va);
      } else {
        NoDeeper(mem, tabs, root, kentry, level + 1, va);
      }
    } else {
      var e := mem[tabs[NodeAt(4, va)]][Idx(4, va)];
      assert EntryOk(tabs, kentry, NodeAt(4, va), Idx(4, va), e);
      if Present(e) { LeafIsUser(e); }
    }
  }

  lemma ParentIn(mem: Memory, tabs: map<Node, nat>, root: nat, kentry: nat, level: nat, va: nat)
    requires Tree(mem, tabs, root, kentry) && 1 <= level < 4 && NodeAt(level + 1, va) in tabs
    ensures NodeAt(level, va) in tabs
  {
    PfxStep(level, va);
    var c := NodeAt(level + 1, va);
    assert TableOk(mem, tabs, kentry, c);
    assert Node(c.level - 1, c.prefix / ENTRIES) == NodeAt(level, va);
  }

  // Without the table of some level there is none below it either.
  lemma {:induction false} NoDeeper(mem: Memory, tabs: map<Node, nat>, root: nat, kentry: nat, level: nat, va: nat)
    requires Tree(mem, tabs, root, kentry) && 1 <= level <= 4
    requires NodeAt(level, va) !in tabs
    ensures NodeAt(4, va) !in tabs
    decreases 4 - level
  {
    if level < 4 {
      if NodeAt(level + 1, va) in tabs { ParentIn(mem, tabs, root, kentry, level, va); }
      NoDeeper(mem, tabs, root, kentry, level + 1, va);
    }
  }

  function Put(s: seq<nat>, i: nat, e: nat): seq<nat>
    requires i < |s|
  {
    s[i := e]
  }

  function ZeroTable(): (t: seq<nat>)
    ensures |t| == ENTRIES && forall i :: 0 <= i < ENTRIES ==> t[i] == 0
  {
    seq(ENTRIES, _ => 0)
  }

  // Memory with a zeroed frame f linked from entry i of the table at n.
  ghost function Grown(mem: Memory, tabs: map<Node, nat>, n: Node, i: nat, f: nat): Memory
    requires n in tabs && tabs[n] in mem && i < |mem[tabs[n]]|
  {
    mem[f := ZeroTable()][tabs[n] := Put(mem[tabs[n]], i, Entry(f, PTE_W + PTE_U))]
  }

  // Linking an empty table below n keeps the tree, and adds no translation.
  lemma GrowTree(mem: Memory, tabs: map<Node, nat>, root: nat, kentry: nat, n: Node, i: nat, f: nat)
    requires Tree(mem, tabs, root, kentry) && n in tabs && n.level < PTLEVELS && i < ENTRIES
    requires Child(n, i) !in tabs && (n.level == 1 ==> i != 0)
    requires Frame(f) && f !in mem
    ensures tabs[n] in mem && |mem[tabs[n]]| == ENTRIES
    ensures Tree(Grown(mem, tabs, n, i, f), tabs[Child(n, i) := f], root, kentry)
    ensures forall va: nat :: Lookup(Grown(mem, tabs, n, i, f), tabs[Child(n, i) := f], va) == Lookup(mem, tabs, va)
  {
    hide Present, User, Entry;
    assert TableOk(mem, tabs, kentry, n);
    var mem', c := Grown(mem, tabs, n, i, f), Child(n, i);
    var tabs' := tabs[c := f];
    forall m | m in tabs' ensures TableOk(mem', tabs', kentry, m) {
      if m != c { assert TableOk(mem, tabs, kentry, m); }
      GrownTable(mem, tabs, root, kentry, n, i, f, m);
    }
    forall m, k | m in tabs' && k in tabs' && m != k ensures tabs'[m] != tabs'[k] {
      if m in tabs { assert TableOk(mem, tabs, kentry, m); }
      if k in tabs { assert TableOk(mem, tabs, kentry, k); }
    }
    AbsentIs();
    forall va: nat ensures Lookup(mem', tabs', va) == Lookup(mem, tabs, va) {
      var m := NodeAt(4, va);
      if m in tabs { assert TableOk(mem, tabs, kentry, m); }
    }
  }

  lemma GrownTable(mem: Memory, tabs: map<Node, nat>, root: nat, kentry: nat, n: Node, i: nat, f: nat, m: Node)
    requires Tree(mem, tabs, root, kentry) && n in tabs && n.level < PTLEVELS && i < ENTRIES
    requires TableOk(mem, tabs, kentry, n)
    requires Child(n, i) !in tabs && (n.level == 1 ==> i != 0)
    requires Frame(f) && f !in mem && m in tabs[Child(n, i) := f]
    requires m != Child(n, i) ==> TableOk(mem, tabs, kentry, m)
    ensures TableOk(Grown(mem, tabs, n, i, f), tabs[Child(n, i) := f], kentry, m)
  {
    hide Present, User, Entry, Tree;
    var mem', c := Grown(mem, tabs, n, i, f), Child(n, i);
    var tabs' := tabs[c := f];
    if m == c {
      forall j: nat | j < ENTRIES ensures EntryOk(tabs', kentry, c, j, mem'[f][j]) {
        NoChildYet(mem, tabs, root, kentry, c, j);
      }
    } else {
      TableFrames(mem, tabs, root, kentry, n, m);
      forall j: nat | j < ENTRIES ensures EntryOk(tabs', kentry, m, j, mem'[tabs'[m]][j]) {
        assert EntryOk(tabs, kentry, m, j, mem[tabs[m]][j]);
        ChildInjective(m, j, n, i);
      }
    }
  }

  lemma TableFrames(mem: Memory, tabs: map<Node, nat>, root: nat, kentry: nat, n: Node, m: Node)
    requires Tree(mem, tabs, root, kentry) && n in tabs && m in tabs
    ensures n != m ==> tabs[n] != tabs[m]
    ensures tabs[n] in mem && tabs[m] in mem
  {
    assert TableOk(mem, tabs, kentry, n) && TableOk(mem, tabs, kentry, m);
  }

  lemma ChildInjective(m: Node, j: nat, n: Node, i: nat)
    requires i < ENTRIES && j < ENTRIES
    ensures Child(m, j) == Child(n, i) <==> m == n && i == j
  {}

  // A node that is not in the tree has no children in it.
  lemma NoChildYet(mem: Memory, tabs: map<Node, nat>, root: nat, kentry: nat, c: Node, j: nat)
    requires Tree(mem, tabs, root, kentry) && c !in tabs && c.level >= 1 && j < ENTRIES
    ensures Child(c, j) !in tabs
  {
    if Child(c, j) in tabs { ChildHasParent(mem, tabs, root, kentry, c, j); }
  }

  lemma ChildHasParent(mem: Memory, tabs: map<Node, nat>, root: nat, kentry: nat, c: Node, j: nat)
    requires Tree(mem, tabs, root, kentry) && c.level >= 1 && j < ENTRIES && Child(c, j) in tabs
    ensures c in tabs
  {
    assert TableOk(mem, tabs, kentry, Child(c, j));
    assert Node(Child(c, j).level - 1, Child(c, j).prefix / ENTRIES) == c;
  }

  ghost function Stored(mem: Memory, t: nat, i: nat, e: nat): Memory
    requires t in mem && i < |mem[t]|
  {
    mem[t := Put(mem[t], i, e)]
  }

  lemma SamePage(va: nat, vb: nat)
    ensures NodeAt(4, va) == NodeAt(4, vb) && Idx(4, va) == Idx(4, vb) <==> va / PGSIZE == vb / PGSIZE
  {
    PfxStep(4, va);
    PfxStep(4, vb);
  }

  // Writing a leaf changes the translation of its own page and of no other.
  lemma StoreLeaf(mem: Memory, tabs: map<Node, nat>, root: nat, kentry: nat, va: nat, e: nat)
    requires Tree(mem, tabs, root, kentry) && NodeAt(4, va) in tabs && Leaf(e)
    ensures var t := tabs[NodeAt(4, va)]; t in mem && |mem[t]| == ENTRIES && Idx(4, va) < ENTRIES
    ensures var mem' := Stored(mem, tabs[NodeAt(4, va)], Idx(4, va), e);
            && Tree(mem', tabs, root, kentry)
            && forall vb: nat :: Lookup(mem', tabs, vb) ==
                 if vb / PGSIZE == va / PGSIZE then (if Present(e) then Some(e) else None) else Lookup(mem, tabs, vb)
  {
    hide Present, User, Entry, Leaf, NodeAt, Idx;
    var n, i := NodeAt(4, va), Idx(4, va);
    IdxSmall(4, va);
    assert TableOk(mem, tabs, kentry, n);
    var mem' := Stored(mem, tabs[n], i, e);
    forall m | m in tabs ensures TableOk(mem', tabs, kentry, m) {
      assert TableOk(mem, tabs, kentry, m);
      NodeLevel(4, va);
      forall j: nat | j < ENTRIES ensures EntryOk(tabs, kentry, m, j, mem'[tabs[m]][j]) {
        assert EntryOk(tabs, kentry, m, j, mem[tabs[m]][j]);
      }
    }
    forall vb: nat
      ensures Lookup(mem', tabs, vb) ==
        if vb / PGSIZE == va / PGSIZE then (if Present(e) then Some(e) else None) else Lookup(mem, tabs, vb)
    {
      SamePage(va, vb);
      IdxSmall(4, vb);
      var m := NodeAt(4, vb);
      if m in tabs { assert TableOk(mem, tabs, kentry, m); }
    }
  }

  lemma IdxSmall(level: nat, va: nat)
    requires 1 <= level <= 4
    ensures Idx(level, va) < ENTRIES
  {}

  lemma NodeLevel(level: nat, va: nat)
    requires 1 <= level <= 5
    ensures NodeAt(level, va).level == level
  {}

  // m is n or lies below it.
  ghost predicate Below(n: Node, m: Node)
    decreases m.level
  {
    m == n || (m.level > n.level && Below(n, Node(m.level - 1, m.prefix / ENTRIES)))
  }

  // The frames of the tables at and below n.
  ghost function Sub(tabs: map<Node, nat>, n: Node): set<nat> {
    set m | m in tabs && Below(n, m) :: tabs[m]
  }

  // The frames below the first entries of n's table.
  ghost function SubBelow(tabs: map<Node, nat>, n: Node, index: nat): set<nat> {
    set m | m in tabs && exists i: nat :: i < index && Below(Child(n, i), m) :: tabs[m]
  }

  // The tables at and below n still hold what they held in mem0.
  ghost predicate Intact(mem: Memory, mem0: Memory, tabs: map<Node, nat>, n: Node) {
    forall m :: m in tabs && Below(n, m) ==> tabs[m] in mem && tabs[m] in mem0 && mem[tabs[m]] == mem0[tabs[m]]
  }

  lemma {:induction false} BelowLevel(n: Node, m: Node)
    requires Below(n, m)
    ensures m.level >= n.level && (m.level == n.level ==> m == n)
    decreases m.level
  {
    if m != n { BelowLevel(n, Node(m.level - 1, m.prefix / ENTRIES)); }
  }

  // Below n means at n or below exactly one of its entries.
  lemma {:induction false} BelowSplit(n: Node, m: Node) returns (i: nat)
    requires Below(n, m) && m != n
    ensures i < ENTRIES && Below(Child(n, i), m)
    decreases m.level
  {
    var p := Node(m.level - 1, m.prefix / ENTRIES);
    if p == n {
      i := m.prefix % ENTRIES;
      assert m == Child(n, i);
    } else {
      i := BelowSplit(n, p);
      BelowLevel(Child(n, i), p);
    }
  }

  lemma {:induction false} BelowChild(n: Node, i: nat, m: Node)
    requires i < ENTRIES && Below(Child(n, i), m)
    ensures Below(n, m) && m != n
    decreases m.level
  {
    BelowLevel(Child(n, i), m);
    var p := Node(m.level - 1, m.prefix / ENTRIES);
    if m == Child(n, i) {
      assert p == n;
    } else {
      BelowChild(n, i, p);
    }
  }

  lemma {:induction false} BelowOneChild(n: Node, i: nat, j: nat, m: Node)
    requires i < ENTRIES && j < ENTRIES && Below(Child(n, i), m) && Below(Child(n, j), m)
    ensures i == j
    decreases m.level
  {
    BelowLevel(Child(n, i), m);
    BelowLevel(Child(n, j), m);
    if m != Child(n, i) && m != Child(n, j) {
      BelowOneChild(n, i, j, Node(m.level - 1, m.prefix / ENTRIES));
    }
  }

  // Every table of the tree lies below the root, and below all its ancestors' places.
  lemma {:induction false} AllBelowRoot(mem: Memory, tabs: map<Node, nat>, root: nat, kentry: nat, m: Node)
    requires Tree(mem, tabs, root, kentry) && m in tabs
    ensures Below(Node(1, 0), m)
    decreases m.level
  {
    assert TableOk(mem, tabs, kentry, m);
    if m.level > 1 { AllBelowRoot(mem, tabs, root, kentry, Node(m.level - 1, m.prefix / ENTRIES)); }
  }

  lemma {:induction false} BelowInTree(mem: Memory, tabs: map<Node, nat>, root: nat, kentry: nat, n: Node, m: Node)
    requires Tree(mem, tabs, root, kentry) && m in tabs && Below(n, m) && n.level >= 1
    ensures n in tabs
    decreases m.level
  {
    assert TableOk(mem, tabs, kentry, m);
    if m != n { BelowInTree(mem, tabs, root, kentry, n, Node(m.level - 1, m.prefix / ENTRIES)); }
  }

  lemma RootSub(mem: Memory, tabs: map<Node, nat>, root: nat, kentry: nat)
    requires Tree(mem, tabs, root, kentry)
    ensures Sub(tabs, Node(1, 0)) == tabs.Values
  {
    forall v | v in tabs.Values ensures v in Sub(tabs, Node(1, 0)) {
      var m :| m in tabs && tabs[m] == v;
      AllBelowRoot(mem, tabs, root, kentry, m);
    }
  }

  lemma ValuesInMemory(mem: Memory, tabs: map<Node, nat>, root: nat, kentry: nat)
    requires Tree(mem, tabs, root, kentry)
    ensures tabs.Values <= mem.Keys && Intact(mem, mem, tabs, Node(1, 0))
    ensures Node(1, 0) in tabs && tabs[Node(1, 0)] == root
  {
    forall m | m in tabs ensures tabs[m] in mem {
      assert TableOk(mem, tabs, kentry, m);
    }
  }

  lemma SubFacts(mem: Memory, tabs: map<Node, nat>, root: nat, kentry: nat, n: Node)
    requires Tree(mem, tabs, root, kentry) && n in tabs
    ensures Below(n, n) && tabs[n] in mem && |mem[tabs[n]]| == ENTRIES
    ensures SubBelow(tabs, n, 0) == {}
  {
    assert TableOk(mem, tabs, kentry, n);
  }

  // One more entry adds the tables below it, which were not among the earlier ones.
  lemma SubStep(mem: Memory, tabs: map<Node, nat>, root: nat, kentry: nat, n: Node, i: nat)
    requires Tree(mem, tabs, root, kentry) && n in tabs && i < ENTRIES
    ensures SubBelow(tabs, n, i + 1) == SubBelow(tabs, n, i) + Sub(tabs, Child(n, i))
    ensures SubBelow(tabs, n, i) !! Sub(tabs, Child(n, i))
    ensures tabs[n] !in Sub(tabs, Child(n, i))
    ensures Child(n, i) !in tabs ==> Sub(tabs, Child(n, i)) == {}
  {
    var c := Child(n, i);
    forall f ensures f in SubBelow(tabs, n, i + 1) <==> f in SubBelow(tabs, n, i) || f in Sub(tabs, c) {
      if f in Sub(tabs, c) {
        var m :| m in tabs && Below(c, m) && tabs[m] == f;
        assert i < i + 1 && Below(Child(n, i), m);
      }
    }
    forall f | f in Sub(tabs, c) ensures f !in SubBelow(tabs, n, i) && f != tabs[n] {
      SubApart(mem, tabs, root, kentry, n, i, f);
    }
    if c !in tabs {
      forall m | m in tabs ensures !Below(c, m) {
        if Below(c, m) { BelowInTree(mem, tabs, root, kentry, c, m); }
      }
    }
  }

  lemma SubApart(mem: Memory, tabs: map<Node, nat>, root: nat, kentry: nat, n: Node, i: nat, f: nat)
    requires Tree(mem, tabs, root, kentry) && n in tabs && i < ENTRIES && f in Sub(tabs, Child(n, i))
    ensures f !in SubBelow(tabs, n, i) && f != tabs[n]
  {
    var m :| m in tabs && Below(Child(n, i), m) && tabs[m] == f;
    BelowLevel(Child(n, i), m);
    forall j: nat | j < i ensures !Below(Child(n, j), m) {
      if Below(Child(n, j), m) { BelowOneChild(n, i, j, m); }
    }
  }

  lemma SubAll(mem: Memory, tabs: map<Node, nat>, root: nat, kentry: nat, n: Node)
    requires Tree(mem, tabs, root, kentry) && n in tabs
    ensures Sub(tabs, n) == SubBelow(tabs, n, ENTRIES) + {tabs[n]}
    ensures tabs[n] !in SubBelow(tabs, n, ENTRIES)
  {
    forall m | m in tabs ensures Below(n, m) <==> m == n || exists i: nat :: i < ENTRIES && Below(Child(n, i), m) {
      if Below(n, m) && m != n { var i := BelowSplit(n, m); }
      if i: nat :| i < ENTRIES && Below(Child(n, i), m) { BelowChild(n, i, m); }
    }
    forall m | m in tabs && exists i: nat :: i < ENTRIES && Below(Child(n, i), m) ensures tabs[m] != tabs[n] {
      var i: nat :| i < ENTRIES && Below(Child(n, i), m);
      BelowLevel(Child(n, i), m);
    }
  }

  // A present user entry above level 4 is the link to a child table, and only such a one.
  lemma TeardownEntry(mem: Memory, tabs: map<Node, nat>, root: nat, kentry: nat, n: Node, i: nat)
    requires Tree(mem, tabs, root, kentry) && n in tabs && i < ENTRIES
    ensures tabs[n] in mem && |mem[tabs[n]]| == ENTRIES
    ensures var e := mem[tabs[n]][i];
            && (n.level < PTLEVELS ==> (Present(e) && User(e) <==> Child(n, i) in tabs))
            && (Child(n, i) in tabs ==> n.level < PTLEVELS && BaseOf(e) == tabs[Child(n, i)])
  {
    hide Present, User, BaseOf, Entry;
    assert TableOk(mem, tabs, kentry, n);
    var e := mem[tabs[n]][i];
    assert EntryOk(tabs, kentry, n, i, e);
    AbsentIs();
    if Child(n, i) in tabs {
      assert TableOk(mem, tabs, kentry, Child(n, i));
      EntryIs(tabs[Child(n, i)], PTE_W + PTE_U);
    }
  }

  // What lies below entry i is untouched when only earlier entries' tables were freed.
  lemma ChildIntact(mem: Memory, was: Memory, mem0: Memory, tabs: map<Node, nat>, root: nat, kentry: nat, n: Node, i: nat)
    requires Tree(mem0, tabs, root, kentry) && n in tabs && i < ENTRIES
    requires Intact(was, mem0, tabs, n) && mem == was - SubBelow(tabs, n, i)
    ensures Intact(mem, mem0, tabs, Child(n, i)) && Sub(tabs, Child(n, i)) <= Sub(tabs, n)
  {
    forall m | m in tabs && Below(Child(n, i), m)
      ensures tabs[m] in mem && tabs[m] in mem0 && mem[tabs[m]] == mem0[tabs[m]] && Below(n, m)
    {
      BelowChild(n, i, m);
      assert tabs[m] in Sub(tabs, Child(n, i));
      SubApart(mem0, tabs, root, kentry, n, i, tabs[m]);
    }
  }
}
