/** Creating and destroying address spaces: what `vmm_create_space` sets up and what the four nested loops of
`vmm_destroy_space` give back. */
module Spaces {
  import opened Words
  import opened PhysicalMemory
  import opened PageTables
  import opened TableForest
  import opened Mapping

  // ---------------------------------------------------------------- creation

  /** A new root table: lower half empty, upper half the kernel's (`vmm_map_kernel`). */
  function FreshRoot(kernel: Table): Table {
    seq(512, i requires 0 <= i < 512 => if i < 256 then 0 else kernel[i])
  }

  function AddSpace(m: Vm, r: nat): Vm
    requires m.kernel in m.ram
  {
    m.(ram := m.ram[r := FreshRoot(m.ram[m.kernel])], own := m.own[r := Tag(r, 4, 0)])
  }

  ghost predicate CanAdd(m: Vm, r: nat) {
    Forest(m) && r !in m.own && r in m.pmm.taken && r in m.ram && 1 <= r
  }

  lemma {:induction false} AddWalk(m: Vm, r: nat, u: nat, page: nat, level: nat)
    requires CanAdd(m, r) && IsTable(m, u) && m.own[u].level == level
    ensures Walk(AddSpace(m, r).ram, u, page, level) == Walk(m.ram, u, page, level)
    decreases level
  {
    var e := m.ram[u][Index(page, level)];
    assert Leads(m, u, Index(page, level));
    if Present(e) && level != 1 && !(level <= 3 && Huge(e)) {
      assert Placed(m, Frame(e));
      AddWalk(m, r, Frame(e), page, level - 1);
    }
  }

  lemma RootLeads(m: Vm, r: nat)
    requires CanAdd(m, r)
    ensures AllLead(AddSpace(m, r)) && Shared(AddSpace(m, r))
  {
    var m' := AddSpace(m, r);
    assert Placed(m, m.kernel);
    forall u, i: nat | IsTable(m', u) && i < 512 ensures Leads(m', u, i) {
      if u == r {
        assert Leads(m, m.kernel, i);
      } else {
        assert Leads(m, u, i);
      }
    }
    forall q, i: nat | IsTable(m', q) && m'.own[q].level == 4 && HighSlot(i) && i < 512 && Present(m'.ram[q][i])
      ensures IsTable(m', m'.kernel) && m'.ram[q][i] == m'.ram[m'.kernel][i]
    {
      assert q != r ==> IsTable(m, q);
    }
  }

  lemma RootPlaced(m: Vm, r: nat)
    requires AllPlaced(m) && m.kernel in m.own && r !in m.own && r in m.pmm.taken && r in m.ram && 1 <= r
    ensures AllPlaced(AddSpace(m, r))
  {
    var m' := AddSpace(m, r);
    forall f | f in m'.own ensures Placed(m', f) {
      PlacedIfOwned(m, f);
    }
  }

  lemma RootReached(m: Vm, r: nat)
    requires AllReached(m) && m.kernel in m.ram && r !in m.own
    ensures AllReached(AddSpace(m, r))
  {
    var m' := AddSpace(m, r);
    forall f | f in m'.own && m'.own[f].root != m'.kernel && m'.own[f].level < 4 ensures Reached(m', f) {
      ReachedStill(m, m', f);
    }
  }

  lemma AddWalks(m: Vm, r: nat)
    requires CanAdd(m, r)
    ensures SameWalks(m, AddSpace(m, r))
  {
    var m' := AddSpace(m, r);
    forall u, page: nat | IsTable(m, u)
      ensures Walk(m'.ram, u, page, m.own[u].level) == Walk(m.ram, u, page, m.own[u].level)
    {
      AddWalk(m, r, u, page, m.own[u].level);
    }
  }

  /** The kernel's translations of the upper half, none of the lower. */
  ghost predicate NewTranslations(m: Vm, m': Vm, r: nat) {
    forall page: nat :: IsPage(page) ==>
      Walk(m'.ram, r, page, 4) == if LowerHalf(page) then None else Walk(m.ram, m.kernel, page, 4)
  }

  lemma AddTranslates(m: Vm, r: nat)
    requires CanAdd(m, r)
    ensures NewTranslations(m, AddSpace(m, r), r)
  {
    var m' := AddSpace(m, r);
    assert Placed(m, m.kernel) && IsTable(m, m.kernel);
    forall page: nat | IsPage(page)
      ensures Walk(m'.ram, r, page, 4) == if LowerHalf(page) then None else Walk(m.ram, m.kernel, page, 4)
    {
      TopIndex(page);
      if !LowerHalf(page) {
        AddWalk(m, r, m.kernel, page, 4);
      }
    }
  }

  /** A new space translates no page of the lower half, and every page of the upper half as the kernel does; no other
  space sees a difference. */
  lemma AddSpaceKeeps(m: Vm, r: nat)
    requires CanAdd(m, r)
    ensures var m' := AddSpace(m, r);
      Forest(m') && SameWalks(m, m') && IsRoot(m', r) && r != m.kernel && NewTranslations(m, m', r)
  {
    assert Placed(m, m.kernel);
    RootLeads(m, r);
    RootPlaced(m, r);
    RootReached(m, r);
    AddWalks(m, r);
    AddTranslates(m, r);
  }

  // ---------------------------------------------------------------- destruction

  /** The frames freed for the first `n` entries of `t`, in the order of the nested loops: below each present entry
  first what it leads to, then the frame it names. */
  function Reclaim(ram: map<nat, Table>, t: nat, level: nat, n: nat): seq<nat>
    decreases level, n
  {
    if n == 0 || level == 0 || t !in ram || n > 512 then []
    else
      var e := ram[t][n - 1];
      Reclaim(ram, t, level, n - 1) +
      if !Present(e) then []
      else (if level == 1 then [] else Reclaim(ram, Frame(e), level - 1, 512)) + [Frame(e)]
  }

  /** `pmm_free_page`, for each frame of a list. */
  function FreeAll(s: PmmState, frames: seq<nat>): PmmState {
    if frames == [] then s
    else FreeAll(s, frames[..|frames| - 1]).FreePages(frames[|frames| - 1] * 0x1000, 1)
  }

  /** The frames with a place in the space of `r`. */
  function OwnedBy(m: Vm, r: nat): set<nat> {
    set f | f in m.own && m.own[f].root == r
  }

  /** `vmm_destroy_space`: free what the lower half reaches, then the root. */
  function DestroySpace(m: Vm, r: nat): Vm {
    m.(pmm := FreeAll(m.pmm, Reclaim(m.ram, r, 4, 256) + [r]), own := m.own - OwnedBy(m, r))
  }

  /** The ancestor at level `level - 1` of a place below level `level`. */
  function Ancestor(tag: Tag, level: nat): nat
    requires tag.level < level
  {
    Prefix(tag.prefix, level - 1 - tag.level)
  }

  /** A place below one of the first `n` entries of the table with the given place. */
  predicate Under(tag: Tag, top: Tag, n: nat) {
    && tag.root == top.root && tag.level < top.level
    && Ancestor(tag, top.level) / 512 == top.prefix && Ancestor(tag, top.level) % 512 < n
  }

  predicate NoDuplicates(s: seq<nat>) {
    forall i, j :: 0 <= i < j < |s| ==> s[i] != s[j]
  }

  /** The list holds each frame placed under the first `n` entries of `t`, once, and nothing else. */
  ghost predicate Exactly(m: Vm, s: seq<nat>, top: Tag, n: nat) {
    && NoDuplicates(s)
    && (forall f :: f in s <==> f in m.own && Under(m.own[f], top, n))
  }

  ghost predicate SpaceTable(m: Vm, t: nat) {
    && AllPlaced(m) && AllReached(m) && AllLead(m)
    && IsTable(m, t) && m.own[t].root != m.kernel
  }

  /** Every place has its ancestors. */
  lemma {:induction false} AncestorExists(m: Vm, f: nat, level: nat) returns (a: nat)
    requires AllPlaced(m) && AllReached(m) && f in m.own && m.own[f].root != m.kernel && m.own[f].level <= level <= 4
    ensures a in m.own && m.own[a] == Tag(m.own[f].root, level, Prefix(m.own[f].prefix, level - m.own[f].level))
    decreases level - m.own[f].level
  {
    if m.own[f].level == level {
      a := f;
    } else {
      assert Reached(m, f);
      var t :| ParentOf(m, t, f);
      a := AncestorExists(m, t, level);
      PrefixShift(m.own[f].prefix, level - m.own[f].level);
    }
  }

  lemma {:induction false} PrefixShift(x: nat, k: nat)
    requires 0 < k
    ensures Prefix(x, k) == Prefix(x / 512, k - 1)
  {
    if k > 1 {
      PrefixShift(x, k - 1);
    }
  }

  /** The table under entry `i`, if anything is placed under that entry. */
  lemma EntryLeadsTo(m: Vm, t: nat, i: nat, f: nat)
    requires SpaceTable(m, t) && i < 512 && f in m.own
    requires Under(m.own[f], m.own[t], i + 1) && !Under(m.own[f], m.own[t], i)
    ensures Present(m.ram[t][i])
    ensures Frame(m.ram[t][i]) == f || (m.own[t].level >= 2 && SpaceTable(m, Frame(m.ram[t][i]))
              && Under(m.own[f], m.own[Frame(m.ram[t][i])], 512))
  {
    var tag, top := m.own[f], m.own[t];
    var c := AncestorExists(m, f, top.level - 1);
    assert Placed(m, c) && Placed(m, t);
    assert Reached(m, c);
    var p :| ParentOf(m, p, c);
    PlacesUnique(m, p, t);
    if tag.level == top.level - 1 {
      PlacesUnique(m, c, f);
    }
  }

  /** What the loops free for one entry is exactly what is placed under it. */
  lemma EntryReclaims(m: Vm, t: nat, i: nat, below: seq<nat>)
    requires SpaceTable(m, t) && i < 512 && Present(m.ram[t][i])
    requires var c := Frame(m.ram[t][i]);
      if m.own[t].level == 1 then below == [] else SpaceTable(m, c) && Exactly(m, below, m.own[c], 512)
    ensures NoDuplicates(below + [Frame(m.ram[t][i])])
    ensures forall f :: f in below + [Frame(m.ram[t][i])] <==>
      f in m.own && Under(m.own[f], m.own[t], i + 1) && !Under(m.own[f], m.own[t], i)
  {
    assert Leads(m, t, i);
    forall f ensures f in below + [Frame(m.ram[t][i])] <==>
      f in m.own && Under(m.own[f], m.own[t], i + 1) && !Under(m.own[f], m.own[t], i)
    {
      if f in below + [Frame(m.ram[t][i])] {
        EntryHolds(m, t, i, below, f);
      }
      if f in m.own && Under(m.own[f], m.own[t], i + 1) && !Under(m.own[f], m.own[t], i) {
        EntryLeadsTo(m, t, i, f);
      }
    }
  }

  /** Nothing else is freed for the entry. */
  lemma EntryHolds(m: Vm, t: nat, i: nat, below: seq<nat>, f: nat)
    requires IsTable(m, t) && i < 512 && Present(m.ram[t][i]) && Leads(m, t, i) && m.own[t].root != m.kernel
    requires var c := Frame(m.ram[t][i]);
      if m.own[t].level == 1 then below == []
      else c in m.own && m.own[c].root != m.kernel && Exactly(m, below, m.own[c], 512)
    requires f in below + [Frame(m.ram[t][i])]
    ensures f in m.own && Under(m.own[f], m.own[t], i + 1) && !Under(m.own[f], m.own[t], i)
  {
  }

  /** The nested loops free exactly the frames placed under the entries they visit, each once. */
  lemma {:induction false} ReclaimExactly(m: Vm, t: nat, n: nat)
    requires SpaceTable(m, t) && n <= if m.own[t].level == 4 then 256 else 512
    ensures Exactly(m, Reclaim(m.ram, t, m.own[t].level, n), m.own[t], n)
    decreases m.own[t].level, n
  {
    if n != 0 {
      var level, i := m.own[t].level, n - 1;
      var before := Reclaim(m.ram, t, level, i);
      if !Present(m.ram[t][i]) {
        assert Reclaim(m.ram, t, level, n) == before;
        ReclaimExactly(m, t, i);
        EntryAbsent(m, t, i, before);
      } else {
        var c := Frame(m.ram[t][i]);
        var below := if level == 1 then [] else Reclaim(m.ram, c, level - 1, 512);
        assert Reclaim(m.ram, t, level, n) == before + (below + [c]);
        ReclaimExactly(m, t, i);
        EntryTable(m, t, i);
        if level != 1 {
          ReclaimExactly(m, c, 512);
        }
        EntryPresent(m, t, i, before, below);
      }
    }
  }

  lemma EntryPresent(m: Vm, t: nat, i: nat, before: seq<nat>, below: seq<nat>)
    requires SpaceTable(m, t) && i < 512 && Present(m.ram[t][i]) && Exactly(m, before, m.own[t], i)
    requires var c := Frame(m.ram[t][i]);
      if m.own[t].level == 1 then below == [] else SpaceTable(m, c) && Exactly(m, below, m.own[c], 512)
    ensures Exactly(m, before + (below + [Frame(m.ram[t][i])]), m.own[t], i + 1)
  {
    EntryReclaims(m, t, i, below);
    JoinExactly(m, t, i, before, below + [Frame(m.ram[t][i])]);
  }

  lemma EntryTable(m: Vm, t: nat, i: nat)
    requires SpaceTable(m, t) && i < 512 && Present(m.ram[t][i]) && (m.own[t].level == 4 ==> i < 256)
    ensures var c := Frame(m.ram[t][i]);
      m.own[t].level != 1 ==> SpaceTable(m, c) && m.own[c].level == m.own[t].level - 1
  {
    assert Leads(m, t, i);
    assert Placed(m, t);
    PlacedIfOwned(m, Frame(m.ram[t][i]));
  }

  lemma EntryAbsent(m: Vm, t: nat, i: nat, before: seq<nat>)
    requires SpaceTable(m, t) && i < 512 && !Present(m.ram[t][i]) && Exactly(m, before, m.own[t], i)
    ensures Exactly(m, before, m.own[t], i + 1)
  {
    forall f | f in m.own && Under(m.own[f], m.own[t], i + 1) ensures Under(m.own[f], m.own[t], i) {
      if !Under(m.own[f], m.own[t], i) {
        EntryLeadsTo(m, t, i, f);
      }
    }
  }

  lemma JoinExactly(m: Vm, t: nat, i: nat, before: seq<nat>, entry: seq<nat>)
    requires t in m.own && Exactly(m, before, m.own[t], i) && NoDuplicates(entry)
    requires forall f :: f in entry <==> f in m.own && Under(m.own[f], m.own[t], i + 1) && !Under(m.own[f], m.own[t], i)
    ensures Exactly(m, before + entry, m.own[t], i + 1)
  {
    forall j, k | 0 <= j < k < |before + entry| ensures (before + entry)[j] != (before + entry)[k] {
      if j < |before| <= k {
        assert (before + entry)[j] in before && (before + entry)[k] in entry;
      }
    }
  }

  /** Destroying a space frees exactly the frames that have a place in it, each once. */
  lemma DestroyFrees(m: Vm, r: nat)
    requires Forest(m) && IsRoot(m, r) && r != m.kernel
    ensures var freed := Reclaim(m.ram, r, 4, 256) + [r];
      NoDuplicates(freed) && forall f :: f in freed <==> f in OwnedBy(m, r)
  {
    RootIs(m, r);
    var below := Reclaim(m.ram, r, 4, 256);
    ReclaimExactly(m, r, 256);
    forall f ensures f in below <==> f in OwnedBy(m, r) && f != r {
      UnderRoot(m, r, f);
    }
    AndOneMore(below, r);
  }

  lemma UnderRoot(m: Vm, r: nat, f: nat)
    requires AllPlaced(m) && IsRoot(m, r) && r != m.kernel && m.own[r] == Tag(r, 4, 0)
    ensures f in m.own && Under(m.own[f], m.own[r], 256) <==> f in OwnedBy(m, r) && f != r
  {
    if f in m.own && m.own[f].root == r && f != r {
      LowerHalfIsUnder(m, r, f);
    }
  }

  lemma AndOneMore(s: seq<nat>, x: nat)
    requires NoDuplicates(s) && x !in s
    ensures NoDuplicates(s + [x]) && forall f :: f in s + [x] <==> f in s || f == x
  {
  }

  lemma LowerHalfIsUnder(m: Vm, r: nat, f: nat)
    requires AllPlaced(m) && f in m.own && m.own[f].root == r && r != m.kernel && f != r
    ensures m.own[f].level < 4 && Under(m.own[f], Tag(r, 4, 0), 256)
  {
    assert Placed(m, f);
    var tag := m.own[f];
    Prefixes(tag.prefix);
  }

  lemma {:induction false} FreeAllIs(s: PmmState, frames: seq<nat>)
    requires NoDuplicates(frames) && forall f :: f in frames ==> f < s.total
    ensures var s' := FreeAll(s, frames);
      && s'.entries == s.entries && s'.total == s.total && s'.used == s.used - |frames|
      && forall p :: p in s'.taken <==> p in s.taken && p !in frames
    decreases |frames|
  {
    if frames != [] {
      var before, f := frames[..|frames| - 1], frames[|frames| - 1];
      assert frames == before + [f];
      assert f in frames && forall g :: g in before ==> g in frames;
      FreeAllIs(s, before);
      assert Frame(f * 0x1000) == f;
      assert Run(f, 1) == {f};
    }
  }

  lemma {:induction false} ListSize(s: seq<nat>, all: set<nat>)
    requires NoDuplicates(s) && forall f :: f in s <==> f in all
    ensures |s| == |all|
    decreases |s|
  {
    if s == [] {
      assert all == {};
    } else {
      var before, f := s[..|s| - 1], s[|s| - 1];
      assert s == before + [f];
      ListSize(before, all - {f});
    }
  }

  /** Destroying a space gives back exactly the pages of the space; the other spaces keep their tables, their
  translations, and their places. */
  lemma DestroySpaceKeeps(m: Vm, r: nat)
    requires Forest(m) && IsRoot(m, r) && r != m.kernel
    ensures var m' := DestroySpace(m, r);
      && Forest(m') && m'.kernel == m.kernel && m'.ram == m.ram
      && m'.own.Keys == m.own.Keys - OwnedBy(m, r)
      && m'.pmm == m.pmm.(taken := m.pmm.taken - OwnedBy(m, r), used := m.pmm.used - |OwnedBy(m, r)|)
  {
    DestroyedPages(m, r);
    WithoutSpace(m, r, DestroySpace(m, r).pmm);
  }

  lemma DestroyedPages(m: Vm, r: nat)
    requires Forest(m) && IsRoot(m, r) && r != m.kernel
    ensures DestroySpace(m, r).pmm == m.pmm.(taken := m.pmm.taken - OwnedBy(m, r), used := m.pmm.used - |OwnedBy(m, r)|)
  {
    var freed := Reclaim(m.ram, r, 4, 256) + [r];
    DestroyFrees(m, r);
    OwnedAreTaken(m);
    FreeAllIs(m.pmm, freed);
    ListSize(freed, OwnedBy(m, r));
    assert DestroySpace(m, r).pmm.taken == m.pmm.taken - OwnedBy(m, r);
  }

  /** The tables without one tree. */
  function WithoutTree(m: Vm, r: nat, pmm: PmmState): Vm {
    m.(pmm := pmm, own := m.own - OwnedBy(m, r))
  }

  /** They are still a forest. */
  lemma WithoutSpace(m: Vm, r: nat, pmm: PmmState)
    requires Forest(m) && r != m.kernel
    requires pmm.Valid() && pmm.total == m.pmm.total && pmm.taken == m.pmm.taken - OwnedBy(m, r)
    ensures Forest(WithoutTree(m, r, pmm))
  {
    WithoutPlaces(m, r, pmm);
    WithoutPaths(m, r, pmm);
  }

  lemma WithoutPlaces(m: Vm, r: nat, pmm: PmmState)
    requires AllPlaced(m) && AllLead(m) && r != m.kernel
    requires pmm.total == m.pmm.total && pmm.taken == m.pmm.taken - OwnedBy(m, r)
    ensures AllPlaced(WithoutTree(m, r, pmm)) && AllLead(WithoutTree(m, r, pmm))
  {
    var m' := WithoutTree(m, r, pmm);
    forall f | f in m'.own ensures Placed(m', f) {
      assert Placed(m, f);
    }
    forall u, i: nat | IsTable(m', u) && i < 512 ensures Leads(m', u, i) {
      assert IsTable(m, u) && Leads(m, u, i);
    }
  }

  lemma WithoutPaths(m: Vm, r: nat, pmm: PmmState)
    requires Shared(m) && AllReached(m) && r != m.kernel && m.kernel in m.own && m.own[m.kernel].root == m.kernel
    ensures Shared(WithoutTree(m, r, pmm)) && AllReached(WithoutTree(m, r, pmm))
  {
    var m' := WithoutTree(m, r, pmm);
    forall q, i: nat | IsTable(m', q) && m'.own[q].level == 4 && HighSlot(i) && i < 512 && Present(m'.ram[q][i])
      ensures IsTable(m', m'.kernel) && m'.ram[q][i] == m'.ram[m'.kernel][i]
    {
      assert IsTable(m, q) && IsTable(m, m.kernel);
    }
    forall f | f in m'.own && m'.own[f].root != m'.kernel && m'.own[f].level < 4 ensures Reached(m', f) {
      assert Reached(m, f);
      ReachedStill(m, m', f);
    }
  }
}
