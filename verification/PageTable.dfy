/** The page-table walk and mappages (kernel/x86_64vm.c).  A four-level tree of table
    pages is shown to behave as a flat map from virtual pages to entry words. */
module PageTable {
  import opened Options
  import opened Mmu
  import opened Kalloc

  /** Position of a table page in the tree: the indices leading to it from the root. */
  type Path = seq<nat>
  type Tables = map<Path, nat>

  function PathOf(va: nat): (p: Path)
    ensures |p| == 3
  {
    [Pml4Index(va), PdptIndex(va), PdIndex(va)]
  }

  /** Follow one entry of one table page. */
  function Follow(mem: seq<seq<nat>>, f: nat, i: nat): Option<nat>
  {
    if f < |mem| && i < |mem[f]| && Present(mem[f][i]) then Some(FrameOf(mem[f][i])) else None
  }

  function FollowPath(mem: seq<seq<nat>>, f: nat, p: Path): Option<nat>
    decreases |p|
  {
    if p == [] then Some(f)
    else
      match Follow(mem, f, p[0])
      case None => None
      case Some(g) => FollowPath(mem, g, p[1..])
  }

  /** The entry slot of an address, when every table page on the way is present. */
  function Slot(mem: seq<seq<nat>>, root: nat, va: nat): Option<(nat, nat)>
  {
    match FollowPath(mem, root, PathOf(va))
    case None => None
    case Some(t) => Some((t, PtIndex(va)))
  }

  /** The flat page map: the entry word of each address, 0 where there is no table. */
  function Entry(mem: seq<seq<nat>>, root: nat, va: nat): nat
  {
    match Slot(mem, root, va)
    case None => 0
    case Some((t, i)) => if t < |mem| && i < |mem[t]| then mem[t][i] else 0
  }

  /** What the processor grants an address: the frame, and whether a store and a user access are
      allowed. */
  datatype Grant = Denied | Granted(frame: nat, writable: bool, user: bool)

  /** The processor's walk from table page `f` along the indices `p`, the last of which is that of
      the leaf: every entry must be present, and each can take away the permission to store and the
      permission of the user. */
  function Granting(mem: seq<seq<nat>>, f: nat, p: Path, writable: bool, user: bool): Grant
    requires p != []
    decreases |p|
  {
    if f >= |mem| || p[0] >= |mem[f]| || !Present(mem[f][p[0]]) then Denied
    else
      var e := mem[f][p[0]];
      var w, u := writable && Writable(e), user && User(e);
      if |p| == 1 then Granted(FrameOf(e), w, u) else Granting(mem, FrameOf(e), p[1..], w, u)
  }

  function Access(mem: seq<seq<nat>>, root: nat, va: nat): Grant
  {
    Granting(mem, root, PathOf(va) + [PtIndex(va)], true, true)
  }

  /** What a leaf entry grants under tables that take nothing away. */
  function LeafGrant(e: nat): Grant
  {
    if Present(e) then Granted(FrameOf(e), Writable(e), User(e)) else Denied
  }

  /** The table pages below `root` form a tree without sharing: `tabs` names the page at
      each position, positions are closed under parents, an entry is present exactly
      when the position below it exists, and each table page is allocated once. */
  ghost predicate Tree(ph: Phys, root: nat, tabs: Tables)
  {
    && ph.Valid()
    && [] in tabs && tabs[[]] == root
    && (forall p :: p in tabs ==> |p| <= 3 && tabs[p] < |ph.mem| && TableFrame(ph.core[tabs[p]]))
    && (forall p, q :: p in tabs && q in tabs && p != q ==> tabs[p] != tabs[q])
    && (forall p :: p in tabs && p != [] ==> Parent(p) in tabs && Last(p) < ENTRIES)
    && (forall p, i :: p in tabs && |p| < 3 && 0 <= i < ENTRIES ==> EntryMatches(ph.mem, tabs, p, i))
  }

  /** The table pages below `root` form some tree without sharing. */
  ghost predicate IsTree(ph: Phys, root: nat) { exists tabs :: Tree(ph, root, tabs) }

  predicate TableFrame(e: CoreEntry) { !e.available && e.ref == 1 }

  function Parent(p: Path): Path
    requires p != []
  {
    p[..|p| - 1]
  }

  function Last(p: Path): nat
    requires p != []
  {
    p[|p| - 1]
  }

  ghost predicate EntryMatches(mem: seq<seq<nat>>, tabs: Tables, p: Path, i: nat)
    requires p in tabs
  {
    tabs[p] < |mem| && Follow(mem, tabs[p], i) == if p + [i] in tabs then Some(tabs[p + [i]]) else None
  }

  /** In a tree, walking down a path finds exactly the page recorded there. */
  lemma {:induction false} FollowTree(ph: Phys, root: nat, tabs: Tables, p: Path, q: Path)
    requires Tree(ph, root, tabs) && p in tabs && |p| + |q| <= 3
    requires forall k :: 0 <= k < |q| ==> q[k] < ENTRIES
    ensures FollowPath(ph.mem, tabs[p], q) == if p + q in tabs then Some(tabs[p + q]) else None
    decreases |q|
  {
    if q == [] {
      assert p + q == p;
    } else {
      assert EntryMatches(ph.mem, tabs, p, q[0]);
      assert p + q == (p + [q[0]]) + q[1..];
      if p + [q[0]] in tabs {
        FollowTree(ph, root, tabs, p + [q[0]], q[1..]);
      } else if p + q in tabs {
        PrefixClosed(ph, root, tabs, p + [q[0]], q[1..]);
      }
    }
  }

  lemma {:induction false} PrefixClosed(ph: Phys, root: nat, tabs: Tables, p: Path, q: Path)
    requires Tree(ph, root, tabs) && p + q in tabs
    ensures p in tabs
    decreases |q|
  {
    if q == [] {
      assert p + q == p;
    } else {
      assert Parent(p + q) == p + q[..|q| - 1];
      PrefixClosed(ph, root, tabs, p, q[..|q| - 1]);
    }
  }

  /** The entry that leads to the table page at position `p`. */
  ghost function Link(mem: seq<seq<nat>>, tabs: Tables, p: Path): nat
  {
    if p != [] && Parent(p) in tabs && tabs[Parent(p)] < |mem| && Last(p) < |mem[tabs[Parent(p)]]|
    then mem[tabs[Parent(p)]][Last(p)] else 0
  }

  predicate Open(w: nat) { Writable(w) && User(w) }

  /** All table pages under position `top` are reached through entries that allow stores and user
      accesses. */
  ghost predicate OpenUnder(mem: seq<seq<nat>>, tabs: Tables, top: Path)
  {
    forall p :: p in tabs && p != [] && top <= p ==> Open(Link(mem, tabs, p))
  }

  /** The tables on the way from `p` along `q` take nothing away. */
  ghost predicate OpenAlong(mem: seq<seq<nat>>, tabs: Tables, p: Path, q: Path)
  {
    forall k :: 0 < k <= |q| && p + q[..k] in tabs ==> Open(Link(mem, tabs, p + q[..k]))
  }

  lemma OpenAlongStep(mem: seq<seq<nat>>, tabs: Tables, p: Path, q: Path)
    requires OpenAlong(mem, tabs, p, q) && q != [] && IndexPath(q)
    ensures var c, r := p + [q[0]], q[1..];
      && q[0] < ENTRIES && IndexPath(r) && p + q == c + r && OpenAlong(mem, tabs, c, r)
      && (c in tabs ==> Open(Link(mem, tabs, c)))
  {
    hide Open, Link;
    var c, r := p + [q[0]], q[1..];
    assert p + q == c + r && p + q[..1] == c;
    forall k | 0 < k <= |r| && c + r[..k] in tabs ensures Open(Link(mem, tabs, c + r[..k])) {
      assert c + r[..k] == p + q[..k + 1];
    }
  }

  lemma {:induction false} GrantedInTree(ph: Phys, root: nat, tabs: Tables, p: Path, q: Path, i: nat)
    requires Tree(ph, root, tabs) && p in tabs && |p| + |q| == 3 && IndexPath(q) && i < ENTRIES
    requires OpenAlong(ph.mem, tabs, p, q)
    ensures p + q !in tabs ==> Granting(ph.mem, tabs[p], q + [i], true, true) == Denied
    ensures p + q in tabs ==>
      && tabs[p + q] < |ph.mem| && i < |ph.mem[tabs[p + q]]|
      && Granting(ph.mem, tabs[p], q + [i], true, true) == LeafGrant(ph.mem[tabs[p + q]][i])
    decreases |q|
  {
    hide *;
    if q == [] {
      assert p + q == p && q + [i] == [i];
      GrantLeaf(ph, root, tabs, p, i);
    } else {
      var c, r := p + [q[0]], q[1..];
      OpenAlongStep(ph.mem, tabs, p, q);
      assert q + [i] == [q[0]] + (r + [i]);
      GrantStep(ph, root, tabs, p, q[0], r + [i]);
      if c in tabs {
        GrantedInTree(ph, root, tabs, c, r, i);
      } else if p + q in tabs {
        PrefixClosed(ph, root, tabs, c, r);
      }
    }
  }

  lemma GrantLeaf(ph: Phys, root: nat, tabs: Tables, p: Path, i: nat)
    requires Tree(ph, root, tabs) && p in tabs && i < ENTRIES
    ensures tabs[p] < |ph.mem| && i < |ph.mem[tabs[p]]|
    ensures Granting(ph.mem, tabs[p], [i], true, true) == LeafGrant(ph.mem[tabs[p]][i])
  {
    hide EntryMatches;
  }

  /** One level of the walk of the hardware. */
  lemma {:induction false} GrantStep(ph: Phys, root: nat, tabs: Tables, p: Path, x: nat, rest: Path)
    requires Tree(ph, root, tabs) && p in tabs && |p| < 3 && x < ENTRIES && rest != []
    ensures p + [x] !in tabs ==> Granting(ph.mem, tabs[p], [x] + rest, true, true) == Denied
    ensures p + [x] in tabs && Open(Link(ph.mem, tabs, p + [x])) ==>
      Granting(ph.mem, tabs[p], [x] + rest, true, true) == Granting(ph.mem, tabs[p + [x]], rest, true, true)
  {
    assert EntryMatches(ph.mem, tabs, p, x);
    LinkIs(ph, root, tabs, p, x);
    hide Link;
    assert ([x] + rest)[1..] == rest;
  }

  lemma LinkIs(ph: Phys, root: nat, tabs: Tables, p: Path, i: nat)
    requires Tree(ph, root, tabs) && p in tabs && i < ENTRIES
    ensures tabs[p] < |ph.mem| && Link(ph.mem, tabs, p + [i]) == ph.mem[tabs[p]][i]
  {
    assert Parent(p + [i]) == p && Last(p + [i]) == i;
  }

  /** Under open tables the processor grants what the leaf entry says. */
  lemma AccessIsLeaf(ph: Phys, root: nat, tabs: Tables, top: Path, va: nat)
    requires Tree(ph, root, tabs) && OpenUnder(ph.mem, tabs, top) && |top| <= 1 && top <= PathOf(va)
    ensures Access(ph.mem, root, va) == LeafGrant(Entry(ph.mem, root, va))
  {
    var q := PathOf(va);
    SlotInTree(ph, root, tabs, va);
    assert [] + q == q;
    forall k | 0 < k <= 3 && [] + q[..k] in tabs ensures Open(Link(ph.mem, tabs, [] + q[..k])) {
      assert [] + q[..k] == q[..k] && top <= q[..k];
    }
    GrantedInTree(ph, root, tabs, [], q, PtIndex(va));
  }

  /** The processor looks at table pages only. */
  lemma {:induction false} GrantsSame(a: Phys, b: Phys, root: nat, tabs: Tables, p: Path, q: Path,
    i: nat, w: bool, u: bool)
    requires Tree(a, root, tabs) && p in tabs && |p| + |q| == 3 && IndexPath(q) && i < ENTRIES
    requires forall f :: f in tabs.Values ==> f < |a.mem| && f < |b.mem| && b.mem[f] == a.mem[f]
    ensures Granting(b.mem, tabs[p], q + [i], w, u) == Granting(a.mem, tabs[p], q + [i], w, u)
    decreases |q|
  {
    assert tabs[p] in tabs.Values;
    if q == [] {
      assert q + [i] == [i];
    } else {
      var e := a.mem[tabs[p]][q[0]];
      assert EntryMatches(a.mem, tabs, p, q[0]);
      assert (q + [i])[0] == q[0] && (q + [i])[1..] == q[1..] + [i];
      if Present(e) {
        GrantsSame(a, b, root, tabs, p + [q[0]], q[1..], i, w && Writable(e), u && User(e));
      }
    }
  }

  lemma AccessSame(a: Phys, b: Phys, root: nat, tabs: Tables, va: nat)
    requires Tree(a, root, tabs)
    requires forall f :: f in tabs.Values ==> f < |a.mem| && f < |b.mem| && b.mem[f] == a.mem[f]
    ensures Access(b.mem, root, va) == Access(a.mem, root, va)
  {
    GrantsSame(a, b, root, tabs, [], PathOf(va), PtIndex(va), true, true);
  }

  lemma SlotInTree(ph: Phys, root: nat, tabs: Tables, va: nat)
    requires Tree(ph, root, tabs)
    ensures Slot(ph.mem, root, va) == if PathOf(va) in tabs then Some((tabs[PathOf(va)], PtIndex(va))) else None
    ensures Entry(ph.mem, root, va) == if PathOf(va) in tabs then ph.mem[tabs[PathOf(va)]][PtIndex(va)] else 0
  {
    FollowTree(ph, root, tabs, [], PathOf(va));
    assert [] + PathOf(va) == PathOf(va);
  }

  /** The four indices determine the virtual page and nothing else. */
  lemma IndicesOfPage(va: nat)
    ensures VPage(va) == Pml4Index(va) * PML4_SPAN + PdptIndex(va) * PDPT_SPAN + PdIndex(va) * PD_SPAN + PtIndex(va)
  {
    var p := va / 4096;
    assert va / 0x20_0000 == p / 512;
    assert va / 0x4000_0000 == p / 0x4_0000;
    assert va / 0x80_0000_0000 == p / 0x800_0000;
    SplitPage(p);
  }

  lemma SplitPage(p: nat)
    ensures p % VPAGES == p / PML4_SPAN % 512 * PML4_SPAN + p / PDPT_SPAN % 512 * PDPT_SPAN
                          + p / PD_SPAN % 512 * PD_SPAN + p % 512
  {
    var a := p / 512;
    var b := a / 512;
    var c := b / 512;
    DivDiv(p);
    RebuildPage(c / 512, c % 512, b % 512, a % 512, p % 512);
  }

  lemma DivDiv(p: nat)
    ensures p / PD_SPAN == p / 512
    ensures p / PDPT_SPAN == p / 512 / 512
    ensures p / PML4_SPAN == p / 512 / 512 / 512
  {
    DivTwice(p, p / 512 / 512, p / 512 % 512, p % 512);
    assert p / 0x4_0000 == p / 512 / 512;
    var b := p / 512 / 512;
    DivThrice(p, b / 512, b % 512, p % 0x4_0000);
  }

  lemma DivTwice(p: nat, b: nat, k: nat, l: nat)
    requires p == (b * 512 + k) * 512 + l && k < 512 && l < 512
    ensures p / 0x4_0000 == b
  {
  }

  lemma DivThrice(p: nat, c: nat, j: nat, l: nat)
    requires p == (c * 512 + j) * 0x4_0000 + l && j < 512 && l < 0x4_0000
    ensures p / 0x800_0000 == c
  {
  }

  lemma RebuildPage(q: nat, i: nat, j: nat, k: nat, l: nat)
    requires i < 512 && j < 512 && k < 512 && l < 512
    ensures ((((q * 512 + i) * 512 + j) * 512 + k) * 512 + l) % VPAGES
         == i * PML4_SPAN + j * PDPT_SPAN + k * PD_SPAN + l
  {
    assert (((q * 512 + i) * 512 + j) * 512 + k) * 512 + l
        == q * VPAGES + (i * PML4_SPAN + j * PDPT_SPAN + k * PD_SPAN + l);
  }

  lemma PageOfIndices(v: nat, i: nat, j: nat, k: nat, l: nat)
    requires v == i * PML4_SPAN + j * PDPT_SPAN + k * PD_SPAN + l
    requires i < ENTRIES && j < ENTRIES && k < ENTRIES && l < ENTRIES
    ensures v / PML4_SPAN == i && v / PDPT_SPAN % ENTRIES == j && v / PD_SPAN % ENTRIES == k && v % ENTRIES == l
  {
    assert v == ((i * 512 + j) * 512 + k) * 512 + l;
    assert v / 512 == (i * 512 + j) * 512 + k;
    assert v / 512 / 512 == i * 512 + j;
    assert v / PDPT_SPAN == v / 512 / 512 && v / PML4_SPAN == v / 512 / 512 / 512;
  }

  /** Two mapped addresses share an entry slot if and only if they are on the same
      virtual page, that is, if and only if all four indices agree. */
  lemma SlotsDistinct(ph: Phys, root: nat, tabs: Tables, va: nat, vb: nat)
    requires Tree(ph, root, tabs)
    requires Slot(ph.mem, root, va).Some?
    ensures Slot(ph.mem, root, va) == Slot(ph.mem, root, vb) <==> VPage(va) == VPage(vb)
    ensures VPage(va) == VPage(vb) <==> PathOf(va) == PathOf(vb) && PtIndex(va) == PtIndex(vb)
  {
    SlotInTree(ph, root, tabs, va);
    SlotInTree(ph, root, tabs, vb);
    IndicesOfPage(va);
    IndicesOfPage(vb);
    PageOfIndices(VPage(va), Pml4Index(va), PdptIndex(va), PdIndex(va), PtIndex(va));
    PageOfIndices(VPage(vb), Pml4Index(vb), PdptIndex(vb), PdIndex(vb), PtIndex(vb));
    if PathOf(va) == PathOf(vb) {
      assert PathOf(va)[0] == PathOf(vb)[0] && PathOf(va)[1] == PathOf(vb)[1] && PathOf(va)[2] == PathOf(vb)[2];
    }
  }

  /** Memory after a fresh zeroed table page `g` is hung below entry `i` of page `f`. */
  function Grafted(ph: Phys, f: nat, i: nat, g: nat): Phys
    requires ph.Valid() && f < |ph.mem| && g < |ph.mem| && i < ENTRIES
  {
    var mem := ph.mem[g := Filled(0)];
    ph.(mem := mem[f := mem[f][i := MakeEntry(g, PTE_P + PTE_W + PTE_U)]])
  }

  /** Hanging a new table page keeps the tree and changes no translation at all. */
  lemma GraftKeepsTree(ph: Phys, root: nat, tabs: Tables, p: Path, i: nat, g: nat)
    requires Tree(ph, root, tabs) && p in tabs && |p| < 3 && i < ENTRIES && p + [i] !in tabs
    requires g < |ph.mem| && TableFrame(ph.core[g]) && g !in tabs.Values
    ensures Tree(Grafted(ph, tabs[p], i, g), root, tabs[p + [i] := g])
  {
    hide EntryMatches, MakeEntry;
    var ph', tabs' := Grafted(ph, tabs[p], i, g), tabs[p + [i] := g];
    forall q | q in tabs' && q != []
      ensures Parent(q) in tabs' && Last(q) < ENTRIES
    {
      assert Parent(p + [i]) == p;
    }
    forall q, j | q in tabs' && |q| < 3 && 0 <= j < ENTRIES
      ensures EntryMatches(ph'.mem, tabs', q, j)
    {
      GraftEntry(ph, root, tabs, p, i, g, q, j);
    }
  }

  /** What the new entry and the new page do to following entries. */
  lemma GraftFollow(ph: Phys, f: nat, i: nat, g: nat, t: nat, j: nat)
    requires ph.Valid() && f < |ph.mem| && g < |ph.mem| && t < |ph.mem| && f != g && i < ENTRIES && j < ENTRIES
    ensures Follow(Grafted(ph, f, i, g).mem, t, j) ==
      if t == f && j == i then Some(g) else if t == g then None else Follow(ph.mem, t, j)
  {
    EntryRoundTrip(g, PTE_P + PTE_W + PTE_U);
    hide MakeEntry;
  }

  lemma GraftTables(ph: Phys, root: nat, tabs: Tables, p: Path, i: nat, g: nat, q: Path, j: nat)
    requires Tree(ph, root, tabs) && p in tabs && i < ENTRIES && p + [i] !in tabs && g !in tabs.Values
    requires (q in tabs || q == p + [i]) && |q| < 3 && j < ENTRIES
    ensures tabs[p] < |ph.mem| && tabs[p] != g
    ensures q in tabs ==> EntryMatches(ph.mem, tabs, q, j) && tabs[q] < |ph.mem| && tabs[q] != g
    ensures q in tabs ==> (tabs[q] == tabs[p] <==> q == p)
    ensures q !in tabs ==> q + [j] !in tabs
    ensures q + [j] == p + [i] <==> q == p && j == i
  {
    assert Parent(p + [i]) == p && Last(p + [i]) == i;
    assert Parent(q + [j]) == q && Last(q + [j]) == j;
  }

  lemma GraftEntry(ph: Phys, root: nat, tabs: Tables, p: Path, i: nat, g: nat, q: Path, j: nat)
    requires Tree(ph, root, tabs) && p in tabs && |p| < 3 && i < ENTRIES && p + [i] !in tabs
    requires g < |ph.mem| && g !in tabs.Values
    requires (q in tabs || q == p + [i]) && |q| < 3 && j < ENTRIES
    ensures EntryMatches(Grafted(ph, tabs[p], i, g).mem, tabs[p + [i] := g], q, j)
  {
    GraftTables(ph, root, tabs, p, i, g, q, j);
    assert ph.Valid();
    hide Tree, Follow;
    GraftFollow(ph, tabs[p], i, g, if q in tabs then tabs[q] else g, j);
  }

  lemma GraftKeepsEntries(ph: Phys, root: nat, tabs: Tables, p: Path, i: nat, g: nat, va: nat)
    requires Tree(ph, root, tabs) && p in tabs && |p| < 3 && i < ENTRIES && p + [i] !in tabs
    requires g < |ph.mem| && TableFrame(ph.core[g]) && g !in tabs.Values
    ensures Entry(Grafted(ph, tabs[p], i, g).mem, root, va) == Entry(ph.mem, root, va)
  {
    GraftKeepsTree(ph, root, tabs, p, i, g);
    SlotInTree(ph, root, tabs, va);
    SlotInTree(Grafted(ph, tabs[p], i, g), root, tabs[p + [i] := g], va);
  }

  /** Memory after one entry word is stored. */
  function Stored(ph: Phys, t: nat, i: nat, w: nat): Phys
    requires ph.Valid() && t < |ph.mem| && i < ENTRIES
  {
    var page: seq<nat> := ph.mem[t][i := w];
    ph.(mem := ph.mem[t := page])
  }

  /** The flat map changed at one virtual page and nowhere else. */
  ghost predicate FlatUpdate(before: Phys, after: Phys, root: nat, page: nat, w: nat)
  {
    forall va :: Entry(after.mem, root, va) == if VPage(va) == page then w else Entry(before.mem, root, va)
  }

  /** Storing a leaf entry changes the flat map at that virtual page and nowhere else. */
  lemma StoreIsFlatUpdate(ph: Phys, root: nat, tabs: Tables, va: nat, w: nat)
    requires Tree(ph, root, tabs) && PathOf(va) in tabs
    ensures Tree(Stored(ph, tabs[PathOf(va)], PtIndex(va), w), root, tabs)
    ensures FlatUpdate(ph, Stored(ph, tabs[PathOf(va)], PtIndex(va), w), root, VPage(va), w)
  {
    var ph' := Stored(ph, tabs[PathOf(va)], PtIndex(va), w);
    forall q, j | q in tabs && |q| < 3 && 0 <= j < ENTRIES
      ensures EntryMatches(ph'.mem, tabs, q, j)
    {
      assert EntryMatches(ph.mem, tabs, q, j);
    }
    forall vb
      ensures Entry(ph'.mem, root, vb) == if VPage(vb) == VPage(va) then w else Entry(ph.mem, root, vb)
    {
      SlotInTree(ph, root, tabs, va);
      SlotInTree(ph, root, tabs, vb);
      SlotInTree(ph', root, tabs, vb);
      SlotsDistinct(ph, root, tabs, va, vb);
    }
  }

  /** No frame outside the tree moves: what was allocated to others keeps its contents
      and its core-map record, and new table pages come only from free frames. */
  ghost predicate OthersKept(before: Phys, after: Phys, tabs: Tables, tabs': Tables)
  {
    && before.Valid() && after.Valid() && |before.core| == |after.core| && before.kend == after.kend
    && tabs.Keys <= tabs'.Keys && (forall p :: p in tabs ==> tabs'[p] == tabs[p])
    && (forall p :: p in tabs' && p !in tabs ==> tabs'[p] < |before.core| && before.core[tabs'[p]].available)
    && (forall f :: 0 <= f < |before.core| && f !in tabs.Values && f !in tabs'.Values ==>
          after.core[f] == before.core[f] && after.mem[f] == before.mem[f])
  }

  /** The entries that lead to old table pages are as before, and those that lead to new ones allow
      stores and user accesses. */
  ghost predicate LinksKept(before: Phys, after: Phys, tabs: Tables, tabs': Tables)
  {
    forall p :: p in tabs' && p != [] ==>
      if p in tabs then Link(after.mem, tabs', p) == Link(before.mem, tabs, p) else Open(Link(after.mem, tabs', p))
  }

  /** Table pages may have been added; the flat map and every other frame are as before. */
  ghost predicate Grown(before: Phys, after: Phys, root: nat, tabs: Tables, tabs': Tables)
  {
    && Tree(before, root, tabs) && Tree(after, root, tabs')
    && OthersKept(before, after, tabs, tabs') && LinksKept(before, after, tabs, tabs')
    && forall va :: Entry(after.mem, root, va) == Entry(before.mem, root, va)
  }

  lemma LinksTransitive(a: Phys, b: Phys, c: Phys, t0: Tables, t1: Tables, t2: Tables)
    requires LinksKept(a, b, t0, t1) && LinksKept(b, c, t1, t2) && t0.Keys <= t1.Keys <= t2.Keys
    ensures LinksKept(a, c, t0, t2)
  {
    hide Link, Open;
  }

  lemma OthersTransitive(a: Phys, b: Phys, c: Phys, root: nat, t0: Tables, t1: Tables, t2: Tables)
    requires OthersKept(a, b, t0, t1) && OthersKept(b, c, t1, t2) && Tree(b, root, t1)
    ensures OthersKept(a, c, t0, t2)
  {
    hide EntryMatches;
    forall p | p in t2 && p !in t0
      ensures t2[p] < |a.core| && a.core[t2[p]].available
    {
      if p !in t1 {
        assert b.core[t2[p]].available;
        assert t2[p] !in t1.Values;
        assert t2[p] !in t0.Values;
      }
    }
  }

  lemma GrownTransitive(a: Phys, b: Phys, c: Phys, root: nat, t0: Tables, t1: Tables, t2: Tables)
    requires Grown(a, b, root, t0, t1) && Grown(b, c, root, t1, t2)
    ensures Grown(a, c, root, t0, t2)
  {
    hide Tree, Entry, LinksKept;
    OthersTransitive(a, b, c, root, t0, t1, t2);
    LinksTransitive(a, b, c, t0, t1, t2);
    hide OthersKept;
  }

  /** Taking a free frame for a new table page grows the tree. */
  lemma GraftGrows(ph: Phys, root: nat, tabs: Tables, p: Path, i: nat)
    requires Tree(ph, root, tabs) && p in tabs && |p| < 3 && i < ENTRIES && p + [i] !in tabs
    requires FirstAvailable(ph.core, 0) < |ph.core|
    ensures var g := FirstAvailable(ph.core, 0);
            Grown(ph, Grafted(Allocated(ph), tabs[p], i, g), root, tabs, tabs[p + [i] := g])
  {
    hide EntryMatches, MakeEntry, Entry, Follow, LinksKept;
    var g := FirstAvailable(ph.core, 0);
    AllocatedKeepsTree(ph, root, tabs);
    GraftKeepsTree(Allocated(ph), root, tabs, p, i, g);
    forall va ensures Entry(Grafted(Allocated(ph), tabs[p], i, g).mem, root, va) == Entry(ph.mem, root, va) {
      GraftKeepsEntries(Allocated(ph), root, tabs, p, i, g, va);
    }
    GraftOthers(ph, root, tabs, p, i);
    GraftLinks(ph, root, tabs, p, i);
  }

  lemma GraftLinks(ph: Phys, root: nat, tabs: Tables, p: Path, i: nat)
    requires Tree(ph, root, tabs) && p in tabs && |p| < 3 && i < ENTRIES && p + [i] !in tabs
    requires FirstAvailable(ph.core, 0) < |ph.core|
    ensures tabs[p] < |ph.mem|
    ensures var g := FirstAvailable(ph.core, 0);
            LinksKept(ph, Grafted(Allocated(ph), tabs[p], i, g), tabs, tabs[p + [i] := g])
  {
    var g := FirstAvailable(ph.core, 0);
    assert tabs[p] < |ph.mem|;
    var ph', tabs' := Grafted(Allocated(ph), tabs[p], i, g), tabs[p + [i] := g];
    forall q | q in tabs' && q != []
      ensures if q in tabs then Link(ph'.mem, tabs', q) == Link(ph.mem, tabs, q) else Open(Link(ph'.mem, tabs', q))
    {
      if q in tabs { OldLink(ph, root, tabs, p, i, q); } else { NewLink(ph, root, tabs, p, i); }
    }
    hide Link, Open, Grafted;
  }

  lemma NewLink(ph: Phys, root: nat, tabs: Tables, p: Path, i: nat)
    requires Tree(ph, root, tabs) && p in tabs && i < ENTRIES && p + [i] !in tabs
    requires FirstAvailable(ph.core, 0) < |ph.core|
    ensures tabs[p] < |ph.mem|
    ensures var g := FirstAvailable(ph.core, 0);
            Open(Link(Grafted(Allocated(ph), tabs[p], i, g).mem, tabs[p + [i] := g], p + [i]))
  {
    EntryRoundTrip(FirstAvailable(ph.core, 0), PTE_P + PTE_W + PTE_U);
    assert tabs[p] < |ph.mem| && ph.Valid();
    hide EntryMatches, MakeEntry, Tree;
    assert Parent(p + [i]) == p && Last(p + [i]) == i;
  }

  lemma OldLink(ph: Phys, root: nat, tabs: Tables, p: Path, i: nat, q: Path)
    requires Tree(ph, root, tabs) && p in tabs && i < ENTRIES && p + [i] !in tabs && q in tabs && q != []
    requires FirstAvailable(ph.core, 0) < |ph.core|
    ensures tabs[p] < |ph.mem|
    ensures var g := FirstAvailable(ph.core, 0);
            Link(Grafted(Allocated(ph), tabs[p], i, g).mem, tabs[p + [i] := g], q) == Link(ph.mem, tabs, q)
  {
    var g, r := FirstAvailable(ph.core, 0), Parent(q);
    assert q == r + [Last(q)] && r in tabs && tabs[r] != g && (tabs[r] == tabs[p] <==> r == p) && r != p + [i];
    assert tabs[p] < |ph.mem| && ph.Valid();
    hide EntryMatches, MakeEntry, Tree;
  }

  lemma GraftOthers(ph: Phys, root: nat, tabs: Tables, p: Path, i: nat)
    requires Tree(ph, root, tabs) && p in tabs && i < ENTRIES && p + [i] !in tabs
      && FirstAvailable(ph.core, 0) < |ph.core|
    ensures tabs[p] < |ph.mem|
    ensures var g := FirstAvailable(ph.core, 0);
            OthersKept(ph, Grafted(Allocated(ph), tabs[p], i, g), tabs, tabs[p + [i] := g])
  {
    hide EntryMatches, MakeEntry;
    var g := FirstAvailable(ph.core, 0);
    assert tabs[p] in tabs.Values;
    assert p + [i] in tabs[p + [i] := g] && g in tabs[p + [i] := g].Values;
  }

  lemma AllocatedKeepsTree(ph: Phys, root: nat, tabs: Tables)
    requires Tree(ph, root, tabs)
    ensures Tree(Allocated(ph), root, tabs)
    ensures FirstAvailable(ph.core, 0) < |ph.core| ==> FirstAvailable(ph.core, 0) !in tabs.Values
    ensures FirstAvailable(ph.core, 0) == |ph.core| ==> Grown(ph, Allocated(ph), root, tabs, tabs)
  {
    forall p, i | p in tabs && |p| < 3 && 0 <= i < ENTRIES
      ensures EntryMatches(Allocated(ph).mem, tabs, p, i)
    {
      assert EntryMatches(ph.mem, tabs, p, i);
    }
  }

  datatype Found = Found(ph: Phys, table: Option<nat>)

  /** One level of walkpml4 as a function: follow entry `i` of table page `f`, creating a
      zeroed page below it when it is missing and `alloc` is set. */
  function Descended(ph: Phys, f: nat, i: nat, alloc: bool): (r: Found)
    requires ph.Valid() && f < |ph.mem| && i < ENTRIES
    ensures r.ph.Valid()
  {
    var g := FirstAvailable(ph.core, 0);
    if Present(ph.mem[f][i]) then Found(ph, Some(FrameOf(ph.mem[f][i])))
    else if !alloc then Found(ph, None)
    else if g == |ph.core| then Found(Allocated(ph), None)
    else Found(Grafted(Allocated(ph), f, i, g), Some(g))
  }

  predicate IndexPath(p: Path) { forall k :: 0 <= k < |p| ==> p[k] < ENTRIES }

  function WalkedDown(ph: Phys, f: nat, p: Path, alloc: bool): (r: Found)
    requires ph.Valid() && IndexPath(p)
    ensures r.ph.Valid() && (r.table.Some? ==> r.table.value < |r.ph.mem|)
    decreases |p|
  {
    if f >= |ph.mem| then Found(ph, None)
    else if p == [] then Found(ph, Some(f))
    else
      var d := Descended(ph, f, p[0], alloc);
      if d.table.None? then d else WalkedDown(d.ph, d.table.value, p[1..], alloc)
  }

  /** The tables added lie on the path. */
  ghost predicate OnPath(tabs: Tables, tabs': Tables, path: Path)
  {
    forall x :: x in tabs' && x !in tabs ==> x <= path
  }

  lemma NothingOnPath(tabs: Tables, p: Path)
    ensures OnPath(tabs, tabs, p)
  {
  }

  lemma OnPathTransitive(t0: Tables, t1: Tables, t2: Tables, p: Path, q: Path)
    requires OnPath(t0, t1, p) && OnPath(t1, t2, p + q)
    ensures OnPath(t0, t2, p + q)
  {
    forall x | x in t2 && x !in t0 ensures x <= p + q {
      if x in t1 { assert x <= p; assert x == (p + q)[..|x|]; }
    }
  }

  lemma DescendGrows(ph: Phys, root: nat, tabs: Tables, p: Path, i: nat, alloc: bool) returns (tabs': Tables)
    requires Tree(ph, root, tabs) && p in tabs && |p| < 3 && i < ENTRIES
    ensures Grown(ph, Descended(ph, tabs[p], i, alloc).ph, root, tabs, tabs')
    ensures FoundAt(Descended(ph, tabs[p], i, alloc), tabs', p + [i], alloc) && OnPath(tabs, tabs', p + [i])
    ensures !alloc ==> Descended(ph, tabs[p], i, alloc).ph == ph
  {
    assert EntryMatches(ph.mem, tabs, p, i);
    InTree(ph, root, tabs, p);
    NothingOnPath(tabs, p + [i]);
    AllocatedKeepsTree(ph, root, tabs);
    hide Grown, Tree;
    var g := FirstAvailable(ph.core, 0);
    tabs' := if Present(ph.mem[tabs[p]][i]) || !alloc || g == |ph.core| then tabs else tabs[p + [i] := g];
    if !Present(ph.mem[tabs[p]][i]) && alloc && g < |ph.core| {
      GraftGrows(ph, root, tabs, p, i);
      hide Grafted;
    }
  }

  /** A walk found the table page at position `p`, or there is none there and, when it
      was allowed to allocate, no frame is left. */
  ghost predicate FoundAt(r: Found, tabs: Tables, p: Path, alloc: bool)
  {
    && r.table == (if p in tabs then Some(tabs[p]) else None)
    && (r.table.None? && alloc ==> NoneAvailable(r.ph))
  }

  lemma GrownTree(before: Phys, after: Phys, root: nat, tabs: Tables, tabs': Tables)
    requires Grown(before, after, root, tabs, tabs')
    ensures Tree(after, root, tabs')
  {
  }

  lemma {:induction false} WalkDownGrows(ph: Phys, root: nat, tabs: Tables, p: Path, q: Path, alloc: bool)
    returns (tabs': Tables)
    requires Tree(ph, root, tabs) && p in tabs && |p| + |q| <= 3 && IndexPath(q)
    ensures Grown(ph, WalkedDown(ph, tabs[p], q, alloc).ph, root, tabs, tabs')
    ensures FoundAt(WalkedDown(ph, tabs[p], q, alloc), tabs', p + q, alloc) && OnPath(tabs, tabs', p + q)
    ensures !alloc ==> WalkedDown(ph, tabs[p], q, alloc).ph == ph
    decreases |q|
  {
    hide Grown, Tree, NoneAvailable, Descended, OnPath;
    InTree(ph, root, tabs, p);
    if q == [] {
      tabs' := tabs;
      assert p + q == p;
      NothingOnPath(tabs, p);
    } else {
      var t1 := DescendGrows(ph, root, tabs, p, q[0], alloc);
      var d := Descended(ph, tabs[p], q[0], alloc);
      var r := WalkedDown(ph, tabs[p], q, alloc);
      assert p + q == (p + [q[0]]) + q[1..];
      GrownTree(ph, d.ph, root, tabs, t1);
      if d.table.None? {
        tabs' := t1;
        NothingOnPath(t1, p + [q[0]] + q[1..]);
        OnPathTransitive(tabs, t1, t1, p + [q[0]], q[1..]);
        if p + q in t1 {
          PrefixClosed(d.ph, root, t1, p + [q[0]], q[1..]);
        }
      } else {
        tabs' := WalkDownGrows(d.ph, root, t1, p + [q[0]], q[1..], alloc);
        GrownTransitive(ph, d.ph, r.ph, root, tabs, t1, tabs');
        OnPathTransitive(tabs, t1, tabs', p + [q[0]], q[1..]);
      }
    }
  }

  lemma InTree(ph: Phys, root: nat, tabs: Tables, p: Path)
    requires Tree(ph, root, tabs)
    ensures ph.Valid() && Grown(ph, ph, root, tabs, tabs)
    ensures [] in tabs && tabs[[]] == root
    ensures p in tabs ==> tabs[p] < |ph.mem|
  {
  }

  function SlotFound(r: Found, va: nat): Option<(nat, nat)>
  {
    if r.table.Some? then Some((r.table.value, PtIndex(va))) else None
  }

  /** walkpml4 as a function. */
  function Walked(ph: Phys, root: nat, va: nat, alloc: bool): (r: Found)
    requires ph.Valid()
    ensures r.ph.Valid() && (r.table.Some? ==> r.table.value < |r.ph.mem|)
  {
    WalkedDown(ph, root, PathOf(va), alloc)
  }

  /** A walk keeps the tree, changes no translation and no other frame, and returns the
      slot of the address; without `alloc` it changes nothing, with it it fails only
      when no frame is left. */
  lemma WalkGrows(ph: Phys, root: nat, tabs: Tables, va: nat, alloc: bool) returns (tabs': Tables)
    requires Tree(ph, root, tabs)
    ensures Grown(ph, Walked(ph, root, va, alloc).ph, root, tabs, tabs')
    ensures Tree(Walked(ph, root, va, alloc).ph, root, tabs')
    ensures SlotFound(Walked(ph, root, va, alloc), va) == Slot(Walked(ph, root, va, alloc).ph.mem, root, va)
    ensures FoundAt(Walked(ph, root, va, alloc), tabs', PathOf(va), alloc) && OnPath(tabs, tabs', PathOf(va))
    ensures !alloc ==> Walked(ph, root, va, alloc).ph == ph
  {
    assert ph.Valid() && [] in tabs && tabs[[]] == root;
    var r := WalkedDown(ph, root, PathOf(va), alloc);
    hide Grown, Tree, WalkedDown, PathOf, PtIndex, OnPath;
    tabs' := WalkDownGrows(ph, root, tabs, [], PathOf(va), alloc);
    assert [] + PathOf(va) == PathOf(va);
    GrownTree(ph, r.ph, root, tabs, tabs');
    SlotInTree(r.ph, root, tabs', va);
  }

  method Descend(m: Machine, f: nat, i: nat, alloc: bool) returns (r: Option<nat>)
    requires m.State().Valid() && f < |m.mem| && i < ENTRIES
    modifies m
    ensures Found(m.State(), r) == Descended(old(m.State()), f, i, alloc)
  {
    if Present(m.mem[f][i]) {
      return Some(FrameOf(m.mem[f][i]));
    }
    if !alloc {
      return None;
    }
    r := m.Kalloc();
    if r.None? {
      return;
    }
    m.mem := m.mem[r.value := Filled(0)];
    var page: seq<nat> := m.mem[f][i := MakeEntry(r.value, PTE_P + PTE_W + PTE_U)];
    m.mem := m.mem[f := page];
  }

  /** walkpml4: the slot of `va`, creating missing table pages when `alloc` is set. */
  method WalkPml4(m: Machine, root: nat, va: nat, alloc: bool) returns (slot: Option<(nat, nat)>)
    requires m.State().Valid() && IsTree(m.State(), root)
    modifies m
    ensures m.State() == Walked(old(m.State()), root, va, alloc).ph
    ensures slot == SlotFound(Walked(old(m.State()), root, va, alloc), va)
  {
    ghost var tabs :| Tree(m.State(), root, tabs);
    ghost var path := PathOf(va);
    ghost var s0 := m.State();
    assert path[1..] == [PdptIndex(va), PdIndex(va)] && path[1..][1..] == [PdIndex(va)] && path[1..][1..][1..] == [];
    assert IndexPath(path) && IndexPath(path[1..]) && IndexPath(path[1..][1..]) && [] in tabs;
    hide Tree, Grown, Descended, WalkedDown, PathOf, IndexPath, NoneAvailable;
    hide Pml4Index, PdptIndex, PdIndex, PtIndex;
    InTree(s0, root, tabs, []);
    WalkStep(s0, root, path, alloc);
    ghost var t1 := NextTable(s0, root, tabs, [], Pml4Index(va), alloc);
    var pdpt := Descend(m, root, Pml4Index(va), alloc);
    if pdpt.None? {
      return None;
    }
    ghost var s1 := m.State();
    WalkStep(s1, pdpt.value, path[1..], alloc);
    ghost var t2 := NextTable(s1, root, t1, [] + [Pml4Index(va)], PdptIndex(va), alloc);
    var pgdir := Descend(m, pdpt.value, PdptIndex(va), alloc);
    if pgdir.None? {
      return None;
    }
    ghost var s2 := m.State();
    WalkStep(s2, pgdir.value, path[1..][1..], alloc);
    ghost var t3 := NextTable(s2, root, t2, [] + [Pml4Index(va)] + [PdptIndex(va)], PdIndex(va), alloc);
    var pgtab := Descend(m, pgdir.value, PdIndex(va), alloc);
    if pgtab.None? {
      return None;
    }
    WalkStep(m.State(), pgtab.value, [], alloc);
    slot := Some((pgtab.value, PtIndex(va)));
  }

  lemma NextTable(ph: Phys, root: nat, tabs: Tables, p: Path, i: nat, alloc: bool) returns (tabs': Tables)
    requires Tree(ph, root, tabs) && p in tabs && |p| < 3 && i < ENTRIES
    ensures var d := Descended(ph, tabs[p], i, alloc);
            && Tree(d.ph, root, tabs') && d.ph.Valid()
            && (d.table.Some? ==> p + [i] in tabs' && tabs'[p + [i]] == d.table.value < |d.ph.mem|)
  {
    tabs' := DescendGrows(ph, root, tabs, p, i, alloc);
    hide Descended;
  }

  lemma WalkStep(ph: Phys, f: nat, p: Path, alloc: bool)
    requires ph.Valid() && IndexPath(p) && f < |ph.mem|
    ensures p == [] ==> WalkedDown(ph, f, p, alloc) == Found(ph, Some(f))
    ensures p != [] ==>
      var d := Descended(ph, f, p[0], alloc);
      WalkedDown(ph, f, p, alloc) ==
      if d.table.None? then d else WalkedDown(d.ph, d.table.value, p[1..], alloc)
  {
  }

  datatype MapResult = Ok | NoMemory | Remap | BadFrame
  datatype MapOutcome = MapOutcome(ph: Phys, result: MapResult)

  function PageAddr(vpn: nat): nat { vpn * PGSIZE }

  function MarkedUser(ph: Phys, f: nat, va: nat): Phys
    requires f < |ph.core|
  {
    ph.(core := ph.core[f := ph.core[f].(user := true, va := va)])
  }

  /** One round of the loop of mappages; the three failures are its panics. */
  function MappedOne(ph: Phys, root: nat, vpn: nat, ppn: nat, perm: nat, kern: bool): (o: MapOutcome)
    requires ph.Valid()
    ensures o.ph.Valid()
  {
    var va := PageAddr(vpn);
    var r := Walked(ph, root, va, true);
    if r.table.None? then MapOutcome(r.ph, NoMemory)
    else if Present(r.ph.mem[r.table.value][PtIndex(va)]) then MapOutcome(r.ph, Remap)
    else
      var s := Stored(r.ph, r.table.value, PtIndex(va), MakeEntry(ppn, perm));
      if kern then MapOutcome(s, Ok)
      else if ppn >= |s.core| then MapOutcome(s, BadFrame)
      else MapOutcome(MarkedUser(s, ppn, va), Ok)
  }

  /** mappages as a function. */
  function Mapped(ph: Phys, root: nat, vpn: nat, n: nat, ppn: nat, perm: nat, kern: bool): (o: MapOutcome)
    requires ph.Valid()
    ensures o.ph.Valid()
    decreases n
  {
    if n == 0 then MapOutcome(ph, Ok)
    else
      var o := MappedOne(ph, root, vpn, ppn, perm, kern);
      if o.result != Ok then o else Mapped(o.ph, root, vpn + 1, n - 1, ppn + 1, perm, kern)
  }

  /** What the core map says about the owner of a frame. */
  ghost predicate SameOwner(a: Phys, b: Phys, g: nat)
  {
    g < |a.core| == |b.core| && b.core[g].user == a.core[g].user && b.core[g].va == a.core[g].va
  }

  /** The frame is a user's, mapped at page `vpn`. */
  ghost predicate OwnedAt(ph: Phys, g: nat, vpn: nat)
  {
    g < |ph.core| && ph.core[g].user && ph.core[g].va == vpn * PGSIZE
  }

  lemma OwnerStays(a: Phys, b: Phys, c: Phys, g: nat, vpn: nat)
    ensures SameOwner(b, c, g) ==> (SameOwner(a, b, g) ==> SameOwner(a, c, g))
    ensures SameOwner(b, c, g) ==> (OwnedAt(b, g, vpn) ==> OwnedAt(c, g, vpn))
  {
  }

  /** A walk gives no frame another owner. */
  lemma {:induction false} WalkOwner(ph: Phys, f: nat, p: Path, alloc: bool, g: nat)
    requires ph.Valid() && IndexPath(p) && g < |ph.core|
    ensures SameOwner(ph, WalkedDown(ph, f, p, alloc).ph, g)
    decreases |p|
  {
    if f < |ph.mem| && p != [] {
      var d := Descended(ph, f, p[0], alloc);
      assert SameOwner(ph, d.ph, g);
      if d.table.Some? { WalkOwner(d.ph, d.table.value, p[1..], alloc, g); }
    }
  }

  lemma {:induction false} MapOneOwner(ph: Phys, root: nat, vpn: nat, ppn: nat, perm: nat, kern: bool, g: nat)
    requires ph.Valid() && g < |ph.core| && MappedOne(ph, root, vpn, ppn, perm, kern).result == Ok
    ensures var s := MappedOne(ph, root, vpn, ppn, perm, kern).ph;
      |s.core| == |ph.core| && if !kern && g == ppn then OwnedAt(s, g, vpn) else SameOwner(ph, s, g)
  {
    WalkOwner(ph, root, PathOf(PageAddr(vpn)), true, g);
    hide WalkedDown, PathOf, PtIndex, MakeEntry;
  }

  lemma {:induction false} MappedNone(ph: Phys, root: nat, vpn: nat, ppn: nat, perm: nat, kern: bool, g: nat)
    requires ph.Valid() && g < |ph.core|
    ensures Mapped(ph, root, vpn, 0, ppn, perm, kern).ph == ph && SameOwner(ph, ph, g)
  {
  }

  lemma {:induction false} MappedFirst(ph: Phys, root: nat, vpn: nat, n: nat, ppn: nat, perm: nat, kern: bool)
    requires ph.Valid() && n > 0 && Mapped(ph, root, vpn, n, ppn, perm, kern).result == Ok
    ensures var o := MappedOne(ph, root, vpn, ppn, perm, kern);
      o.result == Ok
        && Mapped(ph, root, vpn, n, ppn, perm, kern) == Mapped(o.ph, root, vpn + 1, n - 1, ppn + 1, perm, kern)
  {
    hide MappedOne;
  }

  /** mappages records every frame it maps for a user, with the address of its page, and gives no
      other frame another owner. */
  lemma {:induction false} MapOwners(ph: Phys, root: nat, vpn: nat, n: nat, ppn: nat, perm: nat, kern: bool, g: nat)
    requires ph.Valid() && g < |ph.core| && Mapped(ph, root, vpn, n, ppn, perm, kern).result == Ok
    ensures var s := Mapped(ph, root, vpn, n, ppn, perm, kern).ph;
      |s.core| == |ph.core| && if !kern && ppn <= g < ppn + n then OwnedAt(s, g, vpn + g - ppn) else SameOwner(ph, s, g)
    decreases n
  {
    hide *;
    if n > 0 {
      var o := MappedOne(ph, root, vpn, ppn, perm, kern);
      MappedFirst(ph, root, vpn, n, ppn, perm, kern);
      MapOneOwner(ph, root, vpn, ppn, perm, kern, g);
      MapOwners(o.ph, root, vpn + 1, n - 1, ppn + 1, perm, kern, g);
      OwnerStays(ph, o.ph, Mapped(ph, root, vpn, n, ppn, perm, kern).ph, g, vpn);
    } else {
      MappedNone(ph, root, vpn, ppn, perm, kern, g);
    }
  }

  /** The flat map with pages vpn, vpn+1, ... pointed at frames ppn, ppn+1, ... */
  function Target(mem: seq<seq<nat>>, root: nat, va: nat, vpn: nat, n: nat, ppn: nat, perm: nat): nat
  {
    var k := (VPage(va) - vpn) % VPAGES;
    if k < n then MakeEntry(ppn + k, perm) else Entry(mem, root, va)
  }

  /** Only table pages and fresh frames were touched: other frames keep their words,
      availability and reference count. */
  ghost predicate DataKept(before: Phys, after: Phys, tabs': Tables)
  {
    && before.Valid() && after.Valid() && |before.core| == |after.core| && before.kend == after.kend
    && forall f :: 0 <= f < |before.core| && f !in tabs'.Values ==>
         && after.mem[f] == before.mem[f]
         && after.core[f].available == before.core[f].available && after.core[f].ref == before.core[f].ref
  }

  ghost predicate Extends(tabs: Tables, tabs': Tables)
  {
    tabs.Keys <= tabs'.Keys && forall p :: p in tabs ==> tabs'[p] == tabs[p]
  }

  /** New table pages were free before. */
  ghost predicate FreshOnly(before: Phys, tabs: Tables, tabs': Tables)
  {
    forall p :: p in tabs' && p !in tabs ==> tabs'[p] < |before.core| && before.core[tabs'[p]].available
  }

  ghost predicate MapEffect(before: Phys, after: Phys, root: nat, tabs: Tables, tabs': Tables)
  {
    && Tree(before, root, tabs) && Tree(after, root, tabs')
    && Extends(tabs, tabs') && DataKept(before, after, tabs') && FreshOnly(before, tabs, tabs')
    && LinksKept(before, after, tabs, tabs')
  }

  lemma GrownEffect(before: Phys, after: Phys, root: nat, tabs: Tables, tabs': Tables)
    requires Grown(before, after, root, tabs, tabs')
    ensures MapEffect(before, after, root, tabs, tabs')
    ensures forall va :: Entry(after.mem, root, va) == Entry(before.mem, root, va)
  {
    hide Link, EntryMatches;
    assert forall p :: p in tabs ==> tabs'[p] == tabs[p] && tabs[p] in tabs'.Values;
  }

  lemma TablesHeld(ph: Phys, root: nat, tabs: Tables)
    requires Tree(ph, root, tabs)
    ensures forall f :: f in tabs.Values ==> f < |ph.core| && !ph.core[f].available
  {
    hide EntryMatches;
  }

  lemma ValuesExtend(tabs: Tables, tabs': Tables)
    requires Extends(tabs, tabs')
    ensures forall f :: f in tabs.Values ==> f in tabs'.Values
  {
    assert forall p :: p in tabs ==> tabs'[p] == tabs[p] && tabs[p] in tabs'.Values;
  }

  lemma DataTransitive(a: Phys, b: Phys, c: Phys, t1: Tables, t2: Tables)
    requires DataKept(a, b, t1) && DataKept(b, c, t2) && Extends(t1, t2)
    ensures DataKept(a, c, t2)
  {
    ValuesExtend(t1, t2);
    hide Extends;
  }

  lemma FreshTransitive(a: Phys, b: Phys, root: nat, t0: Tables, t1: Tables, t2: Tables)
    requires Extends(t0, t1) && DataKept(a, b, t1) && FreshOnly(a, t0, t1) && Tree(b, root, t1)
    requires Extends(t1, t2) && FreshOnly(b, t1, t2)
    ensures FreshOnly(a, t0, t2)
  {
    TablesHeld(b, root, t1);
    hide Tree;
    forall p | p in t2 && p !in t0
      ensures t2[p] < |a.core| && a.core[t2[p]].available
    {
      if p in t1 { assert t2[p] == t1[p]; } else { assert b.core[t2[p]].available && t2[p] !in t1.Values; }
    }
  }

  lemma EffectTransitive(a: Phys, b: Phys, c: Phys, root: nat, t0: Tables, t1: Tables, t2: Tables)
    requires MapEffect(a, b, root, t0, t1) && MapEffect(b, c, root, t1, t2)
    ensures MapEffect(a, c, root, t0, t2)
  {
    hide Tree, LinksKept, DataKept, FreshOnly;
    assert Extends(t0, t2);
    LinksTransitive(a, b, c, t0, t1, t2);
    hide Extends;
    DataTransitive(a, b, c, t1, t2);
    FreshTransitive(a, b, root, t0, t1, t2);
  }

  lemma MarkKeepsTree(ph: Phys, root: nat, tabs: Tables, f: nat, va: nat)
    requires Tree(ph, root, tabs) && f < |ph.core|
    ensures MapEffect(ph, MarkedUser(ph, f, va), root, tabs, tabs)
  {
    forall p, i | p in tabs && |p| < 3 && 0 <= i < ENTRIES
      ensures EntryMatches(MarkedUser(ph, f, va).mem, tabs, p, i)
    {
      assert EntryMatches(ph.mem, tabs, p, i);
    }
  }

  lemma StoreEffect(ph: Phys, root: nat, tabs: Tables, va: nat, w: nat)
    requires Tree(ph, root, tabs) && PathOf(va) in tabs
    ensures Tree(Stored(ph, tabs[PathOf(va)], PtIndex(va), w), root, tabs)
    ensures FlatUpdate(ph, Stored(ph, tabs[PathOf(va)], PtIndex(va), w), root, VPage(va), w)
    ensures MapEffect(ph, Stored(ph, tabs[PathOf(va)], PtIndex(va), w), root, tabs, tabs)
  {
    hide EntryMatches, PathOf, PtIndex, LinksKept, FlatUpdate, Entry;
    StoreIsFlatUpdate(ph, root, tabs, va, w);
    StoreLinks(ph, root, tabs, va, w);
    assert tabs[PathOf(va)] in tabs.Values;
  }

  /** A leaf entry leads to no table page. */
  lemma StoreLinks(ph: Phys, root: nat, tabs: Tables, va: nat, w: nat)
    requires Tree(ph, root, tabs) && PathOf(va) in tabs
    ensures tabs[PathOf(va)] < |ph.mem|
    ensures LinksKept(ph, Stored(ph, tabs[PathOf(va)], PtIndex(va), w), tabs, tabs)
  {
    hide EntryMatches;
    forall p | p in tabs && p != [] ensures Parent(p) in tabs && tabs[Parent(p)] != tabs[PathOf(va)] {
      assert |Parent(p)| < 3;
    }
  }

  lemma MarkKeepsFlat(before: Phys, ph: Phys, root: nat, page: nat, w: nat, f: nat, va: nat)
    requires FlatUpdate(before, ph, root, page, w) && f < |ph.core|
    ensures FlatUpdate(before, MarkedUser(ph, f, va), root, page, w)
  {
  }

  lemma VPageOf(vpn: nat)
    ensures VPage(PageAddr(vpn)) == vpn % VPAGES
  {
    assert vpn * PGSIZE / PGSIZE == vpn;
  }

  /** Mapping one page updates the flat map at that page only; it fails on a page that
      was present, or when no frame is left for a table, or on a frame out of range. */
  lemma MapOneFlat(ph: Phys, root: nat, tabs: Tables, vpn: nat, ppn: nat, perm: nat, kern: bool)
    returns (tabs': Tables)
    requires Tree(ph, root, tabs)
    ensures var o := MappedOne(ph, root, vpn, ppn, perm, kern);
      && MapEffect(ph, o.ph, root, tabs, tabs') && OnPath(tabs, tabs', PathOf(PageAddr(vpn)))
      && (o.result == NoMemory ==> NoneAvailable(o.ph))
      && (o.result == Remap ==> Present(Entry(ph.mem, root, PageAddr(vpn))))
      && (o.result == BadFrame ==> !kern && ppn >= |ph.core|)
      && (o.result == Ok && !kern ==> ppn < |ph.core|)
      && (o.result == Ok ==> !Present(Entry(ph.mem, root, PageAddr(vpn))))
      && (o.result == Ok ==> FlatUpdate(ph, o.ph, root, vpn % VPAGES, MakeEntry(ppn, perm)))
      && (o.result == Ok ==> PathOf(PageAddr(vpn)) in tabs')
  {
    hide Tree, MapEffect, Walked, PathOf, PtIndex, Entry, VPage, NoneAvailable, MakeEntry, FlatUpdate, OnPath;
    var va := PageAddr(vpn);
    VPageOf(vpn);
    InTree(ph, root, tabs, []);
    var r := Walked(ph, root, va, true);
    tabs' := WalkEffect(ph, root, tabs, va);
    if r.table.Some? {
      var w := MakeEntry(ppn, perm);
      var s := Stored(r.ph, r.table.value, PtIndex(va), w);
      StoreEffect(r.ph, root, tabs', va, w);
      FlatUpdateAfter(ph, r.ph, s, root, VPage(va), w);
      EffectTransitive(ph, r.ph, s, root, tabs, tabs', tabs');
      if !kern && ppn < |s.core| {
        MarkKeepsTree(s, root, tabs', ppn, va);
        MarkKeepsFlat(ph, s, root, VPage(va), w, ppn, va);
        EffectTransitive(ph, s, MarkedUser(s, ppn, va), root, tabs, tabs', tabs');
      }
    }
  }

  ghost predicate SameFlat(before: Phys, after: Phys, root: nat)
  {
    forall va :: Entry(after.mem, root, va) == Entry(before.mem, root, va)
  }

  lemma FlatUpdateAfter(a: Phys, b: Phys, c: Phys, root: nat, page: nat, w: nat)
    requires SameFlat(a, b, root) && FlatUpdate(b, c, root, page, w)
    ensures FlatUpdate(a, c, root, page, w)
  {
  }

  lemma WalkEffect(ph: Phys, root: nat, tabs: Tables, va: nat) returns (tabs': Tables)
    requires Tree(ph, root, tabs)
    ensures var r := Walked(ph, root, va, true);
      && MapEffect(ph, r.ph, root, tabs, tabs') && Tree(r.ph, root, tabs') && SameFlat(ph, r.ph, root)
      && OnPath(tabs, tabs', PathOf(va))
      && |r.ph.core| == |ph.core|
      && (r.table.None? ==> NoneAvailable(r.ph))
      && (r.table.Some? ==> PathOf(va) in tabs' && r.table.value == tabs'[PathOf(va)])
      && (r.table.Some? ==> r.ph.mem[r.table.value][PtIndex(va)] == Entry(ph.mem, root, va))
  {
    var r := Walked(ph, root, va, true);
    tabs' := WalkGrows(ph, root, tabs, va, true);
    GrownEffect(ph, r.ph, root, tabs, tabs');
    SlotInTree(r.ph, root, tabs', va);
    hide Walked, PathOf, PtIndex, NoneAvailable, EntryMatches, OnPath;
  }

  /** The n pages from vpn on now map to the n frames from ppn on; the rest is as before. */
  ghost predicate FlatMapped(before: Phys, after: Phys, root: nat, vpn: nat, n: nat, ppn: nat, perm: nat)
  {
    forall va :: Entry(after.mem, root, va) == Target(before.mem, root, va, vpn, n, ppn, perm)
  }

  ghost predicate NonePresent(ph: Phys, root: nat, vpn: nat, n: nat)
  {
    forall v :: vpn <= v < vpn + n ==> !Present(Entry(ph.mem, root, PageAddr(v)))
  }

  lemma ShiftedPage(v: nat, vpn: nat)
    requires v < VPAGES
    ensures (v - vpn) % VPAGES == 0 <==> v == vpn % VPAGES
    ensures v != vpn % VPAGES ==> (v - (vpn + 1)) % VPAGES == (v - vpn) % VPAGES - 1
    ensures v == vpn % VPAGES ==> (v - (vpn + 1)) % VPAGES == VPAGES - 1
  {
    var q := vpn / VPAGES;
    assert (v - vpn) % VPAGES == (v - vpn % VPAGES) % VPAGES by {
      assert v - vpn % VPAGES == v - vpn + q * VPAGES;
    }
    assert (v - (vpn + 1)) % VPAGES == (v - vpn % VPAGES - 1) % VPAGES by {
      assert v - vpn % VPAGES - 1 == v - (vpn + 1) + q * VPAGES;
    }
  }

  lemma FlatMappedStep(a: Phys, b: Phys, c: Phys, root: nat, vpn: nat, n: nat, ppn: nat, perm: nat)
    requires 0 < n <= VPAGES
    requires FlatUpdate(a, b, root, vpn % VPAGES, MakeEntry(ppn, perm))
    requires FlatMapped(b, c, root, vpn + 1, n - 1, ppn + 1, perm)
    ensures FlatMapped(a, c, root, vpn, n, ppn, perm)
    ensures !Present(Entry(a.mem, root, PageAddr(vpn))) && NonePresent(b, root, vpn + 1, n - 1)
            ==> NonePresent(a, root, vpn, n)
    ensures NonePresent(a, root, vpn, n) ==> NonePresent(b, root, vpn + 1, n - 1)
  {
    hide MakeEntry, Slot, FollowPath, Entry, VPage;
    forall va
      ensures Entry(c.mem, root, va) == Target(a.mem, root, va, vpn, n, ppn, perm)
    {
      ShiftedPage(VPage(va), vpn);
      assert Entry(c.mem, root, va) == Target(b.mem, root, va, vpn + 1, n - 1, ppn + 1, perm);
    }
    forall v | vpn < v < vpn + n
      ensures Entry(b.mem, root, PageAddr(v)) == Entry(a.mem, root, PageAddr(v))
    {
      VPageOf(v);
      DistinctPages(vpn, v - vpn);
    }
  }

  lemma DistinctPages(vpn: nat, k: nat)
    requires 0 < k < VPAGES
    ensures (vpn + k) % VPAGES != vpn % VPAGES
  {
  }

  /** mappages refines an update of the flat page map: on success exactly the given
      pages changed, to exactly the given frames, and none of them was present before;
      each way of failing has its own cause. */
  lemma {:induction false} MapFlat(ph: Phys, root: nat, tabs: Tables, vpn: nat, n: nat, ppn: nat, perm: nat, kern: bool)
    returns (tabs': Tables)
    requires Tree(ph, root, tabs) && n <= VPAGES
    ensures var o := Mapped(ph, root, vpn, n, ppn, perm, kern);
      && MapEffect(ph, o.ph, root, tabs, tabs') && Tree(o.ph, root, tabs')
      && (o.result == Ok ==> FlatMapped(ph, o.ph, root, vpn, n, ppn, perm) && NonePresent(ph, root, vpn, n))
      && (o.result == NoMemory ==> NoneAvailable(o.ph))
      && (o.result == Remap ==> !NonePresent(ph, root, vpn, n))
      && (o.result == BadFrame ==> !kern && ppn + n > |ph.core|)
      && (OpenUnder(ph.mem, tabs, []) ==> OpenUnder(o.ph.mem, tabs', []))
      && (o.result == Ok && OpenUnder(ph.mem, tabs, []) ==> AccessMapped(ph, o.ph, root, vpn, n, ppn, perm))
    decreases n
  {
    hide AccessMapped, OpenUnder, Tree, MapEffect, FlatMapped, FlatUpdate, MappedOne, NoneAvailable,
      NonePresent, Entry, MakeEntry, OnPath;
    InTree(ph, root, tabs, []);
    if n == 0 {
      tabs' := tabs;
      NothingMapped(ph, root, tabs, vpn, ppn, perm);
    } else {
      var o1 := MappedOne(ph, root, vpn, ppn, perm, kern);
      var t1 := MapOneFlat(ph, root, tabs, vpn, ppn, perm, kern);
      EffectTree(ph, o1.ph, root, tabs, t1);
      if o1.result == Ok {
        tabs' := MapFlat(o1.ph, root, t1, vpn + 1, n - 1, ppn + 1, perm, kern);
        var o := Mapped(o1.ph, root, vpn + 1, n - 1, ppn + 1, perm, kern);
        EffectTransitive(ph, o1.ph, o.ph, root, tabs, t1, tabs');
        if o.result == Ok {
          FlatMappedStep(ph, o1.ph, o.ph, root, vpn, n, ppn, perm);
        }
        RemapFound(ph, o1.ph, root, vpn, n, MakeEntry(ppn, perm));
      } else {
        tabs' := t1;
        FirstPresent(ph, root, vpn, n);
      }
    }
    var o := Mapped(ph, root, vpn, n, ppn, perm, kern);
    EffectTree(ph, o.ph, root, tabs, tabs');
    if OpenUnder(ph.mem, tabs, []) {
      EffectOpen(ph, o.ph, root, tabs, tabs', []);
      if o.result == Ok { MappedAccess(ph, o.ph, root, tabs, tabs', vpn, n, ppn, perm); }
    }
  }

  /** What the processor grants after mappages: on the n pages what the new entries say, elsewhere
      what it granted before. */
  ghost predicate AccessMapped(before: Phys, after: Phys, root: nat, vpn: nat, n: nat, ppn: nat, perm: nat)
  {
    forall va :: Access(after.mem, root, va) ==
      var k := (VPage(va) - vpn) % VPAGES;
      if k < n then LeafGrant(MakeEntry(ppn + k, perm)) else Access(before.mem, root, va)
  }

  lemma MappedAccess(before: Phys, after: Phys, root: nat, tabs: Tables, tabs': Tables, vpn: nat, n: nat,
    ppn: nat, perm: nat)
    requires Tree(before, root, tabs) && OpenUnder(before.mem, tabs, [])
    requires Tree(after, root, tabs') && OpenUnder(after.mem, tabs', [])
    requires FlatMapped(before, after, root, vpn, n, ppn, perm)
    ensures AccessMapped(before, after, root, vpn, n, ppn, perm)
  {
    hide Tree, OpenUnder, Access, Entry, LeafGrant, MakeEntry, VPage, PathOf;
    forall va ensures Access(after.mem, root, va) ==
      var k := (VPage(va) - vpn) % VPAGES;
      if k < n then LeafGrant(MakeEntry(ppn + k, perm)) else Access(before.mem, root, va)
    {
      AccessIsLeaf(before, root, tabs, [], va);
      AccessIsLeaf(after, root, tabs', [], va);
      assert Entry(after.mem, root, va) == Target(before.mem, root, va, vpn, n, ppn, perm);
    }
  }

  /** Tables stay open under `top` when all tables there were, or none was there. */
  lemma EffectOpen(before: Phys, after: Phys, root: nat, tabs: Tables, tabs': Tables, top: Path)
    requires MapEffect(before, after, root, tabs, tabs') && OpenUnder(before.mem, tabs, top)
    ensures OpenUnder(after.mem, tabs', top)
  {
    hide Link, Open, Tree;
  }

  lemma NothingMapped(ph: Phys, root: nat, tabs: Tables, vpn: nat, ppn: nat, perm: nat)
    requires Tree(ph, root, tabs)
    ensures MapEffect(ph, ph, root, tabs, tabs) && FlatMapped(ph, ph, root, vpn, 0, ppn, perm)
    ensures NonePresent(ph, root, vpn, 0)
  {
  }

  lemma EffectTree(before: Phys, after: Phys, root: nat, tabs: Tables, tabs': Tables)
    requires MapEffect(before, after, root, tabs, tabs')
    ensures Tree(after, root, tabs') && |after.core| == |before.core|
  {
  }

  lemma FirstPresent(ph: Phys, root: nat, vpn: nat, n: nat)
    requires n > 0
    ensures Present(Entry(ph.mem, root, PageAddr(vpn))) ==> !NonePresent(ph, root, vpn, n)
  {
  }

  lemma RemapFound(a: Phys, b: Phys, root: nat, vpn: nat, n: nat, w: nat)
    requires 0 < n <= VPAGES && FlatUpdate(a, b, root, vpn % VPAGES, w)
    ensures !NonePresent(b, root, vpn + 1, n - 1) ==> !NonePresent(a, root, vpn, n)
  {
    hide Slot, FollowPath, Entry, VPage;
    if !NonePresent(b, root, vpn + 1, n - 1) {
      var v :| vpn + 1 <= v < vpn + n && Present(Entry(b.mem, root, PageAddr(v)));
      VPageOf(v);
      DistinctPages(vpn, v - vpn);
      assert Present(Entry(a.mem, root, PageAddr(v)));
    }
  }

  method MapOnePage(m: Machine, root: nat, vpn: nat, ppn: nat, perm: nat, kern: bool) returns (r: MapResult)
    requires m.State().Valid() && IsTree(m.State(), root)
    modifies m
    ensures MapOutcome(m.State(), r) == MappedOne(old(m.State()), root, vpn, ppn, perm, kern)
  {
    hide IsTree, Walked, MakeEntry, PtIndex;
    var slot := WalkPml4(m, root, PageAddr(vpn), true);
    if slot.None? {
      return NoMemory;
    }
    var (f, i) := slot.value;
    if Present(m.mem[f][i]) {
      return Remap;
    }
    var page: seq<nat> := m.mem[f][i := MakeEntry(ppn, perm)];
    m.mem := m.mem[f := page];
    if !kern {
      if ppn >= |m.core| {
        return BadFrame;
      }
      m.core := m.core[ppn := m.core[ppn].(user := true, va := PageAddr(vpn))];
    }
    r := Ok;
  }

  lemma MapOneKeepsTree(ph: Phys, root: nat, vpn: nat, ppn: nat, perm: nat, kern: bool)
    requires ph.Valid() && IsTree(ph, root)
    ensures IsTree(MappedOne(ph, root, vpn, ppn, perm, kern).ph, root)
  {
    hide MappedOne, FlatUpdate, NoneAvailable, Entry, MakeEntry, Present;
    var tabs :| Tree(ph, root, tabs);
    var tabs' := MapOneFlat(ph, root, tabs, vpn, ppn, perm, kern);
  }

  /** mappages. */
  method MapPages(m: Machine, root: nat, vpn: nat, n: nat, ppn: nat, perm: nat, kern: bool)
    returns (r: MapResult)
    requires m.State().Valid() && IsTree(m.State(), root)
    modifies m
    ensures MapOutcome(m.State(), r) == Mapped(old(m.State()), root, vpn, n, ppn, perm, kern)
  {
    hide IsTree, MappedOne;
    ghost var goal := Mapped(m.State(), root, vpn, n, ppn, perm, kern);
    var i := 0;
    while i < n
      invariant 0 <= i <= n
      invariant m.State().Valid() && IsTree(m.State(), root)
      invariant Mapped(m.State(), root, vpn + i, n - i, ppn + i, perm, kern) == goal
    {
      MapOneKeepsTree(m.State(), root, vpn + i, ppn + i, perm, kern);
      r := MapOnePage(m, root, vpn + i, ppn + i, perm, kern);
      if r != Ok {
        return;
      }
      i := i + 1;
    }
    r := Ok;
  }
}
