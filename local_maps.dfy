/** The local map cache of src/mi/Lmaps.c and src/Los-common.c: the
    reference-counted current map list, the chain of retired lists kept
    alive until the last user is gone, its rebuild when a query misses, the
    readable/writable queries and the map cursor. Which image allocations
    have been released is tracked as ghost state, so that the model can show
    that no image or node is released twice. */
module LocalMaps {
  import opened Prelude
  import opened MapList

  // ---------------------------------------------------------------------
  // Ownership of cached images

  /** A node owns its image when it has one and has not handed it over:
      maps_destroy_list releases exactly the owned images. */
  predicate Owns(v: Region)
  {
    v.image != 0 && !v.shared
  }

  /** No image is owned by two nodes. */
  predicate UniqueOwners(vs: seq<Region>)
  {
    forall a, b :: 0 <= a < b < |vs| && Owns(vs[a]) && Owns(vs[b]) ==> vs[a].image != vs[b].image
  }

  function OwnedImages(vs: seq<Region>): set<nat>
  {
    set k | 0 <= k < |vs| && Owns(vs[k]) :: vs[k].image
  }

  function NodeSet(ns: seq<MapInfo>): set<MapInfo>
  {
    set k | 0 <= k < |ns| :: ns[k]
  }

  lemma OwnedImagesSnoc(vs: seq<Region>, k: nat)
    requires k < |vs|
    ensures OwnedImages(vs[..k + 1]) == OwnedImages(vs[..k]) + (if Owns(vs[k]) then {vs[k].image} else {})
  {
    var L := OwnedImages(vs[..k + 1]);
    var R := OwnedImages(vs[..k]) + (if Owns(vs[k]) then {vs[k].image} else {});
    forall x | x in L ensures x in R
    {
      var t :| 0 <= t < k + 1 && Owns(vs[..k + 1][t]) && vs[..k + 1][t].image == x;
      if t < k {
        assert vs[..k][t] == vs[t];
      }
    }
    forall x | x in R ensures x in L
    {
      if x in OwnedImages(vs[..k]) {
        var t :| 0 <= t < k && Owns(vs[..k][t]) && vs[..k][t].image == x;
        assert vs[..k + 1][t] == vs[t];
      } else {
        assert vs[..k + 1][k] == vs[k];
      }
    }
  }

  /** Where the owner of each node of the rebuilt state, new list N' then
      retired list O' then older chain C, came from in O + C: a new node's
      image is the old node src[r]'s, the others are themselves. */
  function Origin(src: seq<int>, r: nat): int
  {
    if r < |src| then src[r] else r - |src|
  }

  /** The shared premises of the migration lemmas below: O is the current
      list (none of whose nodes is shared), N the new, ordered list caching no
      image, C the retired chain; src records the pass, R is the rebuilt state
      (new list, retired list, chain) and B the state before (O then C). */
  ghost predicate Migration(O: seq<Region>, N: seq<Region>, C: seq<Region>, src: seq<int>,
                            R: seq<Region>, B: seq<Region>)
  {
    Ordered(N) && (forall m :: 0 <= m < |O| ==> !O[m].shared) &&
    (forall k :: 0 <= k < |N| ==> N[k].image == 0 && !N[k].shared) &&
    src == Sources(O, N) && R == NewAfter(O, N, src) + OldAfter(O, src) + C && B == O + C
  }

  /** Every owner in R owns the image of the owner at its origin in B. */
  lemma OwnersTraceBack(O: seq<Region>, N: seq<Region>, C: seq<Region>, src: seq<int>,
                        R: seq<Region>, B: seq<Region>)
    requires Migration(O, N, C, src, R, B)
    ensures forall r :: 0 <= r < |R| && Owns(R[r]) ==>
      0 <= Origin(src, r) < |B| && Owns(B[Origin(src, r)]) && R[r].image == B[Origin(src, r)].image
  {
    TraceSound(O, N, 0, 0, NoSources(|N|));
    var N', O' := NewAfter(O, N, src), OldAfter(O, src);
    forall r | 0 <= r < |R| && Owns(R[r])
      ensures 0 <= Origin(src, r) < |B| && Owns(B[Origin(src, r)]) && R[r].image == B[Origin(src, r)].image
    {
      if r < |N| {
        assert R[r] == N'[r];
      } else if r < |N| + |O| {
        assert R[r] == O'[r - |N|] && B[r - |N|] == O[r - |N|];
      } else {
        assert R[r] == C[r - |N| - |O|] && B[r - |N|] == C[r - |N| - |O|];
      }
    }
  }

  /** Distinct owners in R have distinct origins. */
  lemma OriginsDistinct(O: seq<Region>, N: seq<Region>, C: seq<Region>, src: seq<int>,
                        R: seq<Region>, B: seq<Region>)
    requires Migration(O, N, C, src, R, B)
    ensures forall a, b :: 0 <= a < b < |R| && Owns(R[a]) && Owns(R[b]) ==> Origin(src, a) != Origin(src, b)
  {
    TraceSound(O, N, 0, 0, NoSources(|N|));
    MigrationInjective(O, N);
    var O' := OldAfter(O, src);
    forall a, b | 0 <= a < b < |R| && Owns(R[a]) && Owns(R[b])
      ensures Origin(src, a) != Origin(src, b)
    {
      if a < |N| && |N| <= b < |N| + |O| {
        assert src[a] != b - |N| by {
          var m := b - |N|;
          assert R[b] == O'[m];
          assert m !in src;
        }
      }
    }
  }

  /** Every image owned in B is owned in R. */
  lemma OwnersCovered(O: seq<Region>, N: seq<Region>, C: seq<Region>, src: seq<int>,
                      R: seq<Region>, B: seq<Region>)
    requires Migration(O, N, C, src, R, B)
    ensures OwnedImages(B) <= OwnedImages(R)
  {
    TraceSound(O, N, 0, 0, NoSources(|N|));
    var N', O' := NewAfter(O, N, src), OldAfter(O, src);
    forall img | img in OwnedImages(B) ensures img in OwnedImages(R)
    {
      var t :| 0 <= t < |B| && Owns(B[t]) && B[t].image == img;
      if t < |O| {
        if t in src {
          var k :| 0 <= k < |src| && src[k] == t;
          assert R[k] == N'[k];
        } else {
          assert R[|N| + t] == O'[t];
        }
      } else {
        assert R[|N| + t] == C[t - |O|];
      }
    }
  }

  /** Handing images over in move_cached_elf_data transfers ownership without
      losing or duplicating any: if the current list O (none of whose nodes
      is shared) and the retired chain C own distinct images, and the new,
      ordered list N caches none, then after the pass the new list, the
      retired list and the chain still own distinct images, and together
      exactly the images O and C owned before. */
  lemma MigrationKeepsOwnersUnique(O: seq<Region>, N: seq<Region>, C: seq<Region>)
    requires UniqueOwners(O + C) && Ordered(N)
    requires forall m :: 0 <= m < |O| ==> !O[m].shared
    requires forall k :: 0 <= k < |N| ==> N[k].image == 0 && !N[k].shared
    ensures var src := Sources(O, N);
      var R := NewAfter(O, N, src) + OldAfter(O, src) + C;
      UniqueOwners(R) && OwnedImages(R) == OwnedImages(O + C)
  {
    var src := Sources(O, N);
    var R := NewAfter(O, N, src) + OldAfter(O, src) + C;
    var B := O + C;
    OwnersTraceBack(O, N, C, src, R, B);
    OriginsDistinct(O, N, C, src, R, B);
    OwnersCovered(O, N, C, src, R, B);
    forall a, b | 0 <= a < b < |R| && Owns(R[a]) && Owns(R[b])
      ensures R[a].image != R[b].image
    {
      var x, y := Origin(src, a), Origin(src, b);
      if x < y {
        assert B[x].image != B[y].image;
      } else {
        assert B[y].image != B[x].image;
      }
    }
    forall img | img in OwnedImages(R) ensures img in OwnedImages(B)
    {
      var r :| 0 <= r < |R| && Owns(R[r]) && R[r].image == img;
      assert B[Origin(src, r)].image == img;
    }
  }

  /** A freshly created list owns no image. */
  lemma FreshUnowned(ms: seq<Mapping>)
    ensures UniqueOwners(FreshViews(ms)) && OwnedImages(FreshViews(ms)) == {}
    ensures forall k :: 0 <= k < |ms| ==> !FreshViews(ms)[k].shared
  {
  }

  // ---------------------------------------------------------------------
  // Flag queries

  /** The flags of the first region in vs holding addr. */
  function FlagsAt(vs: seq<Region>, addr: Word): Option<bv32>
  {
    match FirstContaining(vs, addr)
    case None => None
    case Some(k) => Some(vs[k].flags)
  }

  function Masked(f: Option<bv32>, prot: bv32): bv32
  {
    match f
    case None => 0
    case Some(flags) => flags & prot
  }

  /** maps_is_readable / maps_is_writable: the protection bit of the region
      holding addr in the list asked, or failing that in a fresh enumeration. */
  function ProtQuery(current: seq<Region>, snapshot: seq<Region>, addr: Word, prot: bv32): bv32
  {
    var r := Masked(FlagsAt(current, addr), prot);
    if r != 0 then r else Masked(FlagsAt(snapshot, addr), prot)
  }

  /** For ordered lists and a single protection bit the query answers prot
      exactly when the region holding addr in the list asked, or in the fresh
      enumeration, has that bit, and 0 otherwise. */
  lemma ProtQueryMeaning(current: seq<Region>, snapshot: seq<Region>, addr: Word, prot: bv32)
    requires Ordered(current) && Ordered(snapshot) && (prot == PROT_READ || prot == PROT_WRITE)
    ensures var r := ProtQuery(current, snapshot, addr, prot);
      (r == 0 || r == prot) &&
      (r == prot <==>
        (exists k :: 0 <= k < |current| && Contains(current[k], addr) && current[k].flags & prot != 0) ||
        (exists k :: 0 <= k < |snapshot| && Contains(snapshot[k], addr) && snapshot[k].flags & prot != 0))
  {
    forall k | 0 <= k < |current| && Contains(current[k], addr)
      ensures FirstContaining(current, addr) == Some(k)
    {
      ContainingIsUnique(current, addr, k);
    }
    forall k | 0 <= k < |snapshot| && Contains(snapshot[k], addr)
      ensures FirstContaining(snapshot, addr) == Some(k)
    {
      ContainingIsUnique(snapshot, addr, k);
    }
    MaskedIsBit(FlagsAt(current, addr), prot);
    MaskedIsBit(FlagsAt(snapshot, addr), prot);
  }

  lemma MaskedIsBit(f: Option<bv32>, prot: bv32)
    requires prot == PROT_READ || prot == PROT_WRITE
    ensures Masked(f, prot) == 0 || Masked(f, prot) == prot
  {
  }

  /** The rebuild installs the fresh enumeration when it holds addr in a
      region that has one of the expected flags, or when no flag is expected. */
  predicate Installs(snapshot: seq<Region>, addr: Word, expectedFlags: bv32)
  {
    FlagsAt(snapshot, addr).Some? && Accepts(FlagsAt(snapshot, addr).value, expectedFlags)
  }

  /** A region with these flags is acceptable to the rebuild. */
  predicate Accepts(flags: bv32, expectedFlags: bv32)
  {
    expectedFlags == 0 || flags & expectedFlags != 0
  }

  /** One step of maps_destroy_list over the nodes ns with contents vs: the
      k-th node and its image, if it owns one, have been released neither
      before the walk nor earlier in it. */
  lemma ReleaseStep(ns: seq<MapInfo>, vs: seq<Region>, k: nat, freedN: set<MapInfo>, freedI: set<nat>)
    requires |vs| == |ns| && k < |ns| && Distinct(ns) && UniqueOwners(vs) && OwnedImages(vs) !! freedI
    requires forall j :: 0 <= j < |ns| ==> ns[j] !in freedN
    ensures OwnedImages(vs[..k + 1]) == OwnedImages(vs[..k]) + (if Owns(vs[k]) then {vs[k].image} else {})
    ensures Owns(vs[k]) ==> vs[k].image !in freedI + OwnedImages(vs[..k])
    ensures NodeSet(ns[..k + 1]) == NodeSet(ns[..k]) + {ns[k]}
    ensures ns[k] !in freedN + NodeSet(ns[..k])
  {
    OwnedImagesSnoc(vs, k);
    forall t | 0 <= t < k
      ensures vs[..k][t] == vs[t] && ns[..k][t] == ns[t] && ns[t] != ns[k]
      ensures Owns(vs[t]) && Owns(vs[k]) ==> vs[t].image != vs[k].image
    {
    }
    if Owns(vs[k]) {
      assert vs[k].image in OwnedImages(vs);
    }
    assert ns[..k + 1] == ns[..k] + [ns[k]];
  }

  // ---------------------------------------------------------------------
  // The steps of a rebuild

  /** The walk to the last node of a non-empty list. */
  method LastNode(head: MapInfo, ghost ns: seq<MapInfo>) returns (last: MapInfo)
    requires IsList(head, ns)
    ensures last == ns[|ns| - 1]
  {
    last := head;
    ghost var k := 0;
    assert k < |ns| - 1 ==> ns[k].next == ns[k + 1];
    while last.next != null
      invariant 0 <= k < |ns| && last == ns[k]
      invariant last.next == null <==> k == |ns| - 1
      decreases |ns| - k
    {
      last := last.next;
      k := k + 1;
      assert k < |ns| - 1 ==> ns[k].next == ns[k + 1];
    }
  }

  /** Lines 110-116 of rebuild_if_necessary: a non-empty chain B is hung off
      the last node of the list A, which then runs through A + B; no node's
      contents change. */
  method Splice(head: MapInfo, chain: MapInfo?, ghost A: seq<MapInfo>, ghost B: seq<MapInfo>,
                ghost VA: seq<Region>, ghost VB: seq<Region>,
                ghost other: MapInfo, ghost others: seq<MapInfo>, ghost VO: seq<Region>)
    requires IsList(head, A) && IsList(chain, B) && Disjoint(A, B)
    requires IsList(other, others) && Disjoint(others, A) && Disjoint(others, B)
    requires Shows(A, VA) && Shows(B, VB) && Shows(others, VO)
    modifies A`next
    ensures IsList(head, A + B) && IsList(other, others)
    ensures Shows(A + B, VA + VB) && Shows(others, VO)
  {
    if chain == null {
      ShowsConcat(A, B, VA, VB);
      assert A + B == A;
      return;
    }
    DistinctConcat(A, B);
    var last := LastNode(head, A);
    last.next := chain;
    ShowsConcat(A, B, VA, VB);
    forall j | 0 <= j < |A + B| - 1
      ensures (A + B)[j].next == (A + B)[j + 1]
    {
      if j < |A| - 1 {
        assert (A + B)[j] == A[j] && (A + B)[j + 1] == A[j + 1] && A[j] != last;
      } else if j >= |A| {
        assert (A + B)[j] == B[j - |A|] && (A + B)[j + 1] == B[j + 1 - |A|] && B[j - |A|] != last;
      } else {
        assert (A + B)[j] == last && (A + B)[j + 1] == B[0];
      }
    }
    assert (A + B)[|A + B| - 1] == B[|B| - 1] && B[|B| - 1] != last;
    assert last == (A + B)[|A| - 1];
    assert forall j :: 0 <= j < |others| ==> others[j] != A[|A| - 1];
  }

  lemma DisjointFlip(X: seq<MapInfo>, Y: seq<MapInfo>)
    requires Disjoint(X, Y)
    ensures Disjoint(Y, X)
  {
  }

  lemma DisjointFromConcat(X: seq<MapInfo>, A: seq<MapInfo>, B: seq<MapInfo>)
    requires Disjoint(X, A) && Disjoint(X, B)
    ensures Disjoint(X, A + B)
  {
    forall a, b | 0 <= a < |X| && 0 <= b < |A + B| ensures X[a] != (A + B)[b]
    {
      if b < |A| {
        assert (A + B)[b] == A[b];
      } else {
        assert (A + B)[b] == B[b - |A|];
      }
    }
  }

  lemma LiveConcat(N: seq<MapInfo>, A: seq<MapInfo>, B: seq<MapInfo>, freedN: set<MapInfo>)
    requires Live(N, [], freedN) && Live(A, B, freedN)
    ensures Live(N, A + B, freedN)
  {
    forall k | 0 <= k < |A + B| ensures (A + B)[k] !in freedN
    {
      if k < |A| {
        assert (A + B)[k] == A[k];
      } else {
        assert (A + B)[k] == B[k - |A|];
      }
    }
  }

  /** The ownership side of lines 101-119 of rebuild_if_necessary: after the
      hand-over from the current list (contents O) to the new list built from
      ms, the new list, the retired list and the chain (contents C) own
      distinct, unreleased images, and the new list has handed none over. */
  lemma RetireOwned(O: seq<Region>, ms: seq<Mapping>, C: seq<Region>, freedI: set<nat>)
    requires Owned(O, C, freedI) && Ordered(FreshViews(ms))
    ensures var src := Sources(O, FreshViews(ms));
      Owned(NewAfter(O, FreshViews(ms), src), OldAfter(O, src) + C, freedI)
  {
    var F := FreshViews(ms);
    var src := Sources(O, F);
    var O', N' := OldAfter(O, src), NewAfter(O, F, src);
    MigrationKeepsOwnersUnique(O, F, C);
    assert N' + (O' + C) == N' + O' + C;
    forall k | 0 <= k < |N'| ensures !N'[k].shared
    {
      assert N'[k] == NewAt(O, F, src, k);
    }
  }

  /** Lines 101-104 of rebuild_if_necessary: move_cached_elf_data from the
      current list (nodes L, contents O) to the new list (nodes ns, contents
      F), leaving the retired chain (nodes C, contents VC) alone. */
  method Migrate(oldList: MapInfo, ghost L: seq<MapInfo>, ghost O: seq<Region>,
                 chain: MapInfo?, ghost C: seq<MapInfo>, ghost VC: seq<Region>,
                 newList: MapInfo, ghost ns: seq<MapInfo>, ghost F: seq<Region>)
    requires IsList(oldList, L) && IsList(chain, C) && IsList(newList, ns)
    requires Shows(L, O) && Shows(C, VC) && Shows(ns, F)
    requires Disjoint(ns, L) && Disjoint(ns, C) && Disjoint(L, C)
    modifies L`shared, ns`image, ns`size
    ensures IsList(oldList, L) && IsList(chain, C) && IsList(newList, ns) && Shows(C, VC)
    ensures var src := Sources(O, F); Shows(L, OldAfter(O, src)) && Shows(ns, NewAfter(O, F, src))
  {
    ViewsAre(L, O);
    ViewsAre(ns, F);
    DisjointFlip(ns, L);
    forall k | 0 <= k < |C| ensures C[k] !in L && C[k] !in ns
    {
      assert forall j :: 0 <= j < |L| ==> L[j] != C[k];
      assert forall j :: 0 <= j < |ns| ==> ns[j] != C[k];
    }
    ghost var steps := MoveCachedElfData(oldList, L, newList, ns);
  }

  lemma DistinctConcat(A: seq<MapInfo>, B: seq<MapInfo>)
    requires Distinct(A) && Distinct(B) && Disjoint(A, B)
    ensures Distinct(A + B)
  {
    forall a, b | 0 <= a < b < |A + B| ensures (A + B)[a] != (A + B)[b]
    {
      if b < |A| {
        assert (A + B)[a] == A[a] && (A + B)[b] == A[b];
      } else if a >= |A| {
        assert (A + B)[a] == B[a - |A|] && (A + B)[b] == B[b - |A|];
      } else {
        assert (A + B)[a] == A[a] && (A + B)[b] == B[b - |A|];
      }
    }
  }

  lemma UniqueOwnersSplit(L: seq<Region>, C: seq<Region>)
    requires UniqueOwners(L + C)
    ensures UniqueOwners(L) && UniqueOwners(C) && OwnedImages(L) !! OwnedImages(C)
    ensures OwnedImages(L + C) == OwnedImages(L) + OwnedImages(C)
  {
    forall a, b | 0 <= a < b < |L| && Owns(L[a]) && Owns(L[b])
      ensures L[a].image != L[b].image
    {
      assert (L + C)[a] == L[a] && (L + C)[b] == L[b];
    }
    forall a, b | 0 <= a < b < |C| && Owns(C[a]) && Owns(C[b])
      ensures C[a].image != C[b].image
    {
      assert (L + C)[|L| + a] == C[a] && (L + C)[|L| + b] == C[b];
    }
    forall a, b | 0 <= a < |L| && 0 <= b < |C| && Owns(L[a]) && Owns(C[b])
      ensures L[a].image != C[b].image
    {
      assert (L + C)[a] == L[a] && (L + C)[|L| + b] == C[b];
    }
    forall x | x in OwnedImages(L) ensures x !in OwnedImages(C)
    {
      var a :| 0 <= a < |L| && Owns(L[a]) && L[a].image == x;
    }
    forall x | x in OwnedImages(L + C) ensures x in OwnedImages(L) + OwnedImages(C)
    {
      var t :| 0 <= t < |L + C| && Owns((L + C)[t]) && (L + C)[t].image == x;
      if t < |L| {
        assert L[t] == (L + C)[t];
      } else {
        assert C[t - |L|] == (L + C)[t];
      }
    }
    forall x | x in OwnedImages(L) + OwnedImages(C) ensures x in OwnedImages(L + C)
    {
      if x in OwnedImages(L) {
        var a :| 0 <= a < |L| && Owns(L[a]) && L[a].image == x;
        assert (L + C)[a] == L[a];
      } else {
        var b :| 0 <= b < |C| && Owns(C[b]) && C[b].image == x;
        assert (L + C)[|L| + b] == C[b];
      }
    }
  }

  // ---------------------------------------------------------------------
  // The cache

  /** The nodes ns hold the contents vs, in order. */
  ghost predicate Shows(ns: seq<MapInfo>, vs: seq<Region>)
    reads ns`start, ns`end, ns`offset, ns`flags, ns`path, ns`image, ns`size, ns`shared
  {
    |ns| == |vs| && forall k {:trigger ns[k].View()} :: 0 <= k < |ns| ==> ns[k].View() == vs[k]
  }

  lemma ShowsConcat(A: seq<MapInfo>, B: seq<MapInfo>, VA: seq<Region>, VB: seq<Region>)
    requires Shows(A, VA) && Shows(B, VB)
    ensures Shows(A + B, VA + VB)
  {
    forall k | 0 <= k < |A + B| ensures (A + B)[k].View() == (VA + VB)[k]
    {
      if k < |A| {
        assert (A + B)[k] == A[k] && (VA + VB)[k] == VA[k];
      } else {
        assert (A + B)[k] == B[k - |A|] && (VA + VB)[k] == VB[k - |A|];
      }
    }
  }

  /** list and toDelete head separate, well-formed lists through L and C. */
  ghost predicate Linked(list: MapInfo?, toDelete: MapInfo?, L: seq<MapInfo>, C: seq<MapInfo>)
    reads L`next, C`next
  {
    IsList(list, L) && IsList(toDelete, C) && Disjoint(L, C)
  }

  /** No node of L or C has been released. */
  ghost predicate Live(L: seq<MapInfo>, C: seq<MapInfo>, freedN: set<MapInfo>)
  {
    (forall k :: 0 <= k < |L| ==> L[k] !in freedN) &&
    (forall k :: 0 <= k < |C| ==> C[k] !in freedN)
  }

  /** The nodes of the current list (contents L) have not handed their images
      over, and the current list and the chain (contents C) own distinct
      images, none of them released. */
  ghost predicate Owned(L: seq<Region>, C: seq<Region>, freedI: set<nat>)
  {
    (forall k :: 0 <= k < |L| ==> !L[k].shared) &&
    UniqueOwners(L + C) && OwnedImages(L + C) !! freedI
  }

  /** The bookkeeping beside the cache: the nodes of the current list and of
      the retired chain, their contents, and the nodes and images released so
      far. */
  datatype Ledger = Ledger(listNodes: seq<MapInfo>, chainNodes: seq<MapInfo>, listViews: seq<Region>,
                           chainViews: seq<Region>, freedNodes: set<MapInfo>, freedImages: set<nat>)

  /** The ledger once the current list (nodes and contents) has gone to the
      head of the retired chain and the list ns, holding vs, has become
      current; the current list then holds retired. */
  function Retired(l: Ledger, ns: seq<MapInfo>, vs: seq<Region>, retired: seq<Region>): Ledger
  {
    Ledger(ns, l.listNodes + l.chainNodes, vs, retired + l.chainViews, l.freedNodes, l.freedImages)
  }

  /** The ledger once the list ns, built from an enumeration with contents
      F, has taken over the cached images of the current list and replaced
      it. */
  function Installed(l: Ledger, ns: seq<MapInfo>, F: seq<Region>): Ledger
  {
    var src := Sources(l.listViews, F);
    Retired(l, ns, NewAfter(l.listViews, F, src), OldAfter(l.listViews, src))
  }

  /** The ledger once both lists have been released. */
  function Released(l: Ledger): Ledger
  {
    Ledger([], [], [], [], l.freedNodes + NodeSet(l.listNodes) + NodeSet(l.chainNodes),
           l.freedImages + OwnedImages(l.listViews + l.chainViews))
  }

  /** With list current and toDelete the retired chain, the ledger l is
      accurate: separate, well-formed lists of unreleased nodes holding
      l.listViews and l.chainViews, whose images are owned as Owned says. */
  ghost predicate Consistent(list: MapInfo?, toDelete: MapInfo?, l: Ledger)
    reads l.listNodes, l.chainNodes
  {
    Linked(list, toDelete, l.listNodes, l.chainNodes) && Live(l.listNodes, l.chainNodes, l.freedNodes) &&
    Shows(l.listNodes, l.listViews) && Shows(l.chainNodes, l.chainViews) &&
    Owned(l.listViews, l.chainViews, l.freedImages)
  }

  /** unw_map_cursor_t: the list a walk was started on and its position. */
  class MapCursor {
    var mapList: MapInfo?
    var curMap: MapInfo?

    constructor ()
      ensures mapList == null && curMap == null
    {
      mapList, curMap := null, null;
    }
  }

  /** local_map_list, local_map_list_refs and local_to_delete_list, with
      their ledger g. */
  class LocalMapCache {
    var list: MapInfo?
    var refs: int
    var toDelete: MapInfo?
    ghost var g: Ledger

    /** A list is current exactly while references are held, and a retired
        chain exists only beside a current list (so the walk to the current
        list's last node always has a node to start from). */
    ghost predicate Valid()
      reads this, g.listNodes, g.chainNodes
    {
      0 <= refs && (refs == 0 <==> list == null) && (toDelete != null ==> list != null) && NodesOk()
    }

    /** The ledger is accurate. */
    ghost predicate NodesOk()
      reads this`list, this`toDelete, this`g, g.listNodes, g.chainNodes
    {
      Consistent(list, toDelete, g)
    }

    /** The globals' initial values. */
    constructor ()
      ensures Valid() && list == null && refs == 0 && toDelete == null
      ensures g.listNodes == [] && g.chainNodes == [] && g.listViews == [] && g.chainViews == []
      ensures g.freedNodes == {} && g.freedImages == {}
    {
      list, refs, toDelete := null, 0, null;
      g := Ledger([], [], [], [], {}, {});
    }

    /** maps_destroy_list: releases every node of the list and every image a
        node owns; each is released once. */
    method DestroyList(head: MapInfo?, ghost ns: seq<MapInfo>, ghost vs: seq<Region>)
      requires IsList(head, ns) && Shows(ns, vs) && UniqueOwners(vs) && OwnedImages(vs) !! g.freedImages
      requires forall k :: 0 <= k < |ns| ==> ns[k] !in g.freedNodes
      modifies this`g
      ensures g == old(g).(freedNodes := old(g.freedNodes) + NodeSet(ns),
                           freedImages := old(g.freedImages) + OwnedImages(vs))
    {
      var n := head;
      ghost var k := 0;
      while n != null
        invariant 0 <= k <= |ns| && n == (if k < |ns| then ns[k] else null)
        invariant g == old(g).(freedNodes := old(g.freedNodes) + NodeSet(ns[..k]),
                               freedImages := old(g.freedImages) + OwnedImages(vs[..k]))
        decreases |ns| - k
      {
        var next := n.next;
        ReleaseStep(ns, vs, k, old(g.freedNodes), old(g.freedImages));
        assert vs[k] == n.View();
        if n.image != 0 && !n.shared {
          // the image is released once
          assert n.image !in g.freedImages;
          g := g.(freedImages := g.freedImages + {n.image});
        }
        // and so is the node
        assert n !in g.freedNodes;
        g := g.(freedNodes := g.freedNodes + {n});
        n := next;
        k := k + 1;
      }
      assert ns[..k] == ns && vs[..k] == vs;
    }

    /** unw_map_local_create: the first user builds the list from the OS's
        enumeration ms (failing, with -1, when it yields nothing); later users
        only take another reference. */
    method Create(ms: seq<Mapping>) returns (ret: int)
      requires Valid()
      modifies this`list, this`refs, this`g
      ensures Valid()
      ensures old(refs) == 0 && ms != [] ==>
        ret == 0 && refs == 1 && list != null && fresh(list) && g.listViews == FreshViews(ms)
      ensures old(refs) == 0 && ms == [] ==> ret == -1 && refs == 0 && list == null
      ensures old(refs) == 0 ==>
        g == old(g).(listNodes := g.listNodes, listViews := FreshViews(ms)) &&
        forall k :: 0 <= k < |g.listNodes| ==> fresh(g.listNodes[k])
      ensures old(refs) > 0 ==>
        ret == 0 && refs == old(refs) + 1 && list == old(list) && g == old(g)
    {
      ret := 0;
      if refs == 0 {
        BuildList(ms);
        if list != null {
          refs := 1;
        } else {
          ret := -1;
        }
      } else {
        refs := refs + 1;
      }
    }

    /** Lines 57-64 of unw_map_local_create: the first user's list. */
    method BuildList(ms: seq<Mapping>)
      requires list == null && toDelete == null && g.listNodes == [] && g.chainNodes == [] && g.chainViews == []
      modifies this`list, this`g
      ensures NodesOk() && g.listViews == FreshViews(ms)
      ensures (list == null <==> ms == []) && (list != null ==> fresh(list))
      ensures g == old(g).(listNodes := g.listNodes, listViews := FreshViews(ms))
      ensures forall k :: 0 <= k < |g.listNodes| ==> fresh(g.listNodes[k])
    {
      var head;
      ghost var ns;
      head, ns := MapsCreateList(ms);
      ghost var l := g.(listNodes := ns, listViews := FreshViews(ms));
      forall k | 0 <= k < |ns| ensures ns[k] !in l.freedNodes && fresh(ns[k])
      {
        assert ns[k] in ns;
      }
      FreshUnowned(ms);
      assert FreshViews(ms) + [] == FreshViews(ms);
      if head != null {
        assert head in ns;
      }
      Start(head, l);
    }

    /** The field updates that end BuildList. */
    method Start(head: MapInfo?, ghost l: Ledger)
      requires Consistent(head, toDelete, l)
      modifies this`list, this`g
      ensures NodesOk() && list == head && g == l
    {
      list := head;
      g := l;
    }

    /** unw_map_local_destroy: drops a reference while a list is current; the
        last one releases the retired chain and then the current list. */
    method Destroy()
      requires Valid()
      modifies this`list, this`refs, this`toDelete, this`g
      ensures Valid()
      ensures old(list) == null ==>
        refs == old(refs) && list == null && toDelete == old(toDelete) && g == old(g)
      ensures old(list) != null && old(refs) > 1 ==>
        refs == old(refs) - 1 && list == old(list) && toDelete == old(toDelete) && g == old(g)
      ensures old(list) != null && old(refs) == 1 ==>
        refs == 0 && list == null && toDelete == null && g == Released(old(g))
    {
      if list != null {
        if refs == 1 {
          ReleaseAll();
          refs := 0;
        } else {
          refs := refs - 1;
        }
      }
    }

    /** Lines 77-80 of unw_map_local_destroy: the retired chain and then the
        current list are released. */
    method ReleaseAll()
      requires NodesOk()
      modifies this`list, this`toDelete, this`g
      ensures NodesOk() && list == null && toDelete == null && g == Released(old(g))
    {
      ghost var L, C, VL, VC := g.listNodes, g.chainNodes, g.listViews, g.chainViews;
      ghost var r := Released(g);
      UniqueOwnersSplit(VL, VC);
      DestroyList(toDelete, C, VC);
      forall k | 0 <= k < |L| ensures L[k] !in NodeSet(C)
      {
        assert forall t :: 0 <= t < |C| ==> C[t] != L[k];
      }
      DestroyList(list, L, VL);
      assert g.freedNodes == r.freedNodes && g.freedImages == r.freedImages;
      Clear(r);
    }

    /** The field updates that end ReleaseAll. */
    method Clear(ghost l: Ledger)
      requires l.listNodes == [] && l.chainNodes == [] && l.listViews == [] && l.chainViews == []
      modifies this`list, this`toDelete, this`g
      ensures NodesOk() && list == null && toDelete == null && g == l
    {
      list, toDelete := null, null;
      g := l;
    }

    /** unw_map_local_cursor_get. */
    method CursorGet(c: MapCursor)
      modifies c
      ensures c.mapList == list && c.curMap == null
    {
      c.mapList := list;
      c.curMap := null;
    }

    /** unw_map_local_cursor_valid: 0 while the cursor's list is still the
        current one, -1 once the cache has moved on. */
    method CursorValid(c: MapCursor) returns (r: int)
      ensures r == 0 <==> c.mapList == list
      ensures r == 0 || r == -1
    {
      if c.mapList == list {
        return 0;
      }
      return -1;
    }

    /** Lines 102-119 of rebuild_if_necessary: the current list (now holding
        retiredViews) goes to the head of the retired chain, the previous
        chain hanging off its last node, and the new list becomes current. */
    method Retire(newList: MapInfo, ghost newNodes: seq<MapInfo>, ghost newViews: seq<Region>,
                  ghost retiredViews: seq<Region>)
      requires Linked(list, toDelete, g.listNodes, g.chainNodes) && list != null
      requires IsList(newList, newNodes) && Disjoint(newNodes, g.listNodes) && Disjoint(newNodes, g.chainNodes)
      requires Shows(newNodes, newViews) && Shows(g.listNodes, retiredViews) && Shows(g.chainNodes, g.chainViews)
      requires Live(newNodes, [], g.freedNodes) && Live(g.listNodes, g.chainNodes, g.freedNodes)
      requires Owned(newViews, retiredViews + g.chainViews, g.freedImages)
      modifies this`list, this`toDelete, this`g
      modifies g.listNodes`next
      ensures NodesOk()
      ensures list == newList && toDelete == old(list) && g == Retired(old(g), newNodes, newViews, retiredViews)
    {
      ghost var A, B := g.listNodes, g.chainNodes;
      ghost var l := Retired(g, newNodes, newViews, retiredViews);
      Splice(list, toDelete, A, B, retiredViews, g.chainViews, newList, newNodes, newViews);
      DisjointFromConcat(newNodes, A, B);
      LiveConcat(newNodes, A, B, l.freedNodes);
      Adopt(newList, l);
    }

    /** The field updates that end Retire. */
    method Adopt(newList: MapInfo, ghost l: Ledger)
      requires Consistent(newList, list, l)
      modifies this`list, this`toDelete, this`g
      ensures NodesOk() && list == newList && toDelete == old(list) && g == l
    {
      toDelete, list := list, newList;
      g := l;
    }

    /** Lines 101-119 of rebuild_if_necessary: the cached images move to the
        new list (move_cached_elf_data) and it replaces the current list. */
    method Install(newList: MapInfo, ghost newNodes: seq<MapInfo>, ghost ms: seq<Mapping>)
      requires NodesOk() && list != null
      requires IsList(newList, newNodes) && Shows(newNodes, FreshViews(ms)) && Ordered(FreshViews(ms))
      requires Disjoint(newNodes, g.listNodes) && Disjoint(newNodes, g.chainNodes)
      requires Live(newNodes, [], g.freedNodes)
      modifies this`list, this`toDelete, this`g, g.listNodes`shared, g.listNodes`next, newNodes`image, newNodes`size
      ensures NodesOk() && list == newList && list != old(list) && toDelete == old(list)
      ensures g == Installed(old(g), newNodes, FreshViews(ms))
    {
      ghost var O, F := g.listViews, FreshViews(ms);
      Migrate(list, g.listNodes, O, toDelete, g.chainNodes, g.chainViews, newList, newNodes, F);
      ghost var src := Sources(O, F);
      RetireOwned(O, ms, g.chainViews, g.freedImages);
      assert newList == newNodes[0] && list == g.listNodes[0];
      Retire(newList, newNodes, NewAfter(O, F, src), OldAfter(O, src));
    }

    /** rebuild_if_necessary: enumerates the regions afresh (ms) and, when the
        new list has a region holding addr with one of the expected flags (or
        none are expected), moves the cached images over and installs it,
        retiring the current list; otherwise the new list is released and
        nothing else changes. Returns the flags of the region found, if any
        (the source returns the node itself). */
    method RebuildIfNecessary(ms: seq<Mapping>, addr: Word, expectedFlags: bv32) returns (found: Option<bv32>)
      requires NodesOk() && list != null && Ordered(FreshViews(ms))
      modifies this`list, this`toDelete, this`g, g.listNodes`shared, g.listNodes`next
      ensures NodesOk() && list != null
      ensures found == FlagsAt(FreshViews(ms), addr)
      ensures Installs(FreshViews(ms), addr, expectedFlags) ==>
        list != old(list) && toDelete == old(list) && g == Installed(old(g), g.listNodes, FreshViews(ms))
      ensures !Installs(FreshViews(ms), addr, expectedFlags) ==>
        list == old(list) && toDelete == old(toDelete) && g == old(g).(freedNodes := g.freedNodes) &&
        old(g.freedNodes) <= g.freedNodes && forall n :: n in g.freedNodes - old(g.freedNodes) ==> fresh(n)
    {
      var newList, newNodes, region := Enumerate(ms, addr);
      found := if region != null then Some(region.flags) else None;
      if found.Some? && Accepts(found.value, expectedFlags) {
        Install(newList, newNodes, ms);
      } else {
        Discard(newList, newNodes, ms);
        forall n | n in g.freedNodes - old(g.freedNodes) ensures fresh(n)
        {
          var t :| 0 <= t < |newNodes| && newNodes[t] == n;
        }
      }
    }

    /** rebuild_if_necessary as written: it returns the node found in the new
        list also when it has just released that list, so the read of
        map->flags that follows in maps_is_readable and maps_is_writable
        reads a released node. */
    method RebuildReturningNode(ms: seq<Mapping>, addr: Word, expectedFlags: bv32) returns (node: MapInfo?)
      requires NodesOk() && list != null && Ordered(FreshViews(ms))
      modifies this`list, this`toDelete, this`g, g.listNodes`shared, g.listNodes`next
      ensures NodesOk() && list != null
      ensures node != null <==> FlagsAt(FreshViews(ms), addr).Some?
      ensures node != null && !Installs(FreshViews(ms), addr, expectedFlags) ==> node in g.freedNodes
    {
      var newList, newNodes, region := Enumerate(ms, addr);
      node := region;
      if region != null && Accepts(region.flags, expectedFlags) {
        Install(newList, newNodes, ms);
      } else {
        Discard(newList, newNodes, ms);
        if region != null {
          assert region in NodeSet(newNodes) by {
            var f := FirstContaining(FreshViews(ms), addr);
            assert region == newNodes[f.value];
          }
        }
      }
    }

    /** Lines 96-97 of rebuild_if_necessary: a new list from the OS's
        enumeration ms, none of whose nodes the cache has seen, and the region
        in it holding addr. */
    method Enumerate(ms: seq<Mapping>, addr: Word) returns (newList: MapInfo?, ghost newNodes: seq<MapInfo>, region: MapInfo?)
      ensures IsList(newList, newNodes) && Shows(newNodes, FreshViews(ms))
      ensures forall k :: 0 <= k < |newNodes| ==> fresh(newNodes[k])
      ensures Live(newNodes, [], g.freedNodes) && Disjoint(newNodes, g.listNodes) && Disjoint(newNodes, g.chainNodes)
      ensures var f := FirstContaining(FreshViews(ms), addr);
        (region != null <==> f.Some?) &&
        (region != null ==> region == newNodes[f.value] && region.flags == FreshViews(ms)[f.value].flags)
    {
      ghost var F := FreshViews(ms);
      newList, newNodes := MapsCreateList(ms);
      region := MapFindFromAddr(newList, newNodes, addr);
      assert region != null ==> region.flags == F[FirstContaining(F, addr).value].flags;
      forall k | 0 <= k < |newNodes| ensures newNodes[k] !in g.freedNodes && fresh(newNodes[k])
      {
        assert newNodes[k] in newNodes;
      }
    }

    /** Line 122 of rebuild_if_necessary: the new list, unused, is released;
        it owns no image and its nodes are none of the cache's. */
    method Discard(newList: MapInfo?, ghost newNodes: seq<MapInfo>, ghost ms: seq<Mapping>)
      requires NodesOk() && IsList(newList, newNodes) && Shows(newNodes, FreshViews(ms))
      requires Live(newNodes, [], g.freedNodes) && Disjoint(newNodes, g.listNodes) && Disjoint(newNodes, g.chainNodes)
      modifies this`g
      ensures NodesOk() && g == old(g).(freedNodes := old(g.freedNodes) + NodeSet(newNodes))
    {
      FreshUnowned(ms);
      DestroyList(newList, newNodes, FreshViews(ms));
      forall k | 0 <= k < |g.listNodes| ensures g.listNodes[k] !in g.freedNodes
      {
        assert forall t :: 0 <= t < |newNodes| ==> newNodes[t] != g.listNodes[k];
      }
      forall k | 0 <= k < |g.chainNodes| ensures g.chainNodes[k] !in g.freedNodes
      {
        assert forall t :: 0 <= t < |newNodes| ==> newNodes[t] != g.chainNodes[k];
      }
    }

    /** maps_is_readable and maps_is_writable, for protection bit prot: the
        bit of the region holding addr in mapList; when that is clear, the
        bit of the region the rebuild finds. */
    method MapsHasProt(mapList: MapInfo?, ghost nodes: seq<MapInfo>, addr: Word, ms: seq<Mapping>, prot: bv32)
      returns (ret: bv32)
      requires Valid() && refs > 0 && IsList(mapList, nodes) && Ordered(FreshViews(ms))
      modifies this`list, this`toDelete, this`g, g.listNodes`shared, g.listNodes`next
      ensures Valid()
      ensures ret == ProtQuery(old(Views(nodes)), FreshViews(ms), addr, prot)
      ensures Masked(FlagsAt(old(Views(nodes)), addr), prot) != 0 ==>
        list == old(list) && toDelete == old(toDelete) && g == old(g)
      ensures Masked(FlagsAt(old(Views(nodes)), addr), prot) == 0 && Installs(FreshViews(ms), addr, prot) ==>
        list != old(list) && toDelete == old(list) && g == Installed(old(g), g.listNodes, FreshViews(ms))
      ensures Masked(FlagsAt(old(Views(nodes)), addr), prot) == 0 && !Installs(FreshViews(ms), addr, prot) ==>
        list == old(list) && toDelete == old(toDelete) && g == old(g).(freedNodes := g.freedNodes) &&
        old(g.freedNodes) <= g.freedNodes
    {
      ghost var V := Views(nodes);
      var region := MapFindFromAddr(mapList, nodes, addr);
      var here := if region != null then Some(region.flags) else None;
      assert here == FlagsAt(V, addr) by {
        if region != null {
          assert region.View() == V[FirstContaining(V, addr).value];
        }
      }
      ret := Masked(here, prot);
      if ret == 0 {
        var found := RebuildIfNecessary(ms, addr, prot);
        ret := Masked(found, prot);
      }
    }

    /** maps_is_readable. */
    method MapsIsReadable(mapList: MapInfo?, ghost nodes: seq<MapInfo>, addr: Word, ms: seq<Mapping>)
      returns (ret: bv32)
      requires Valid() && refs > 0 && IsList(mapList, nodes) && Ordered(FreshViews(ms))
      modifies this`list, this`toDelete, this`g, g.listNodes`shared, g.listNodes`next
      ensures Valid()
      ensures ret == ProtQuery(old(Views(nodes)), FreshViews(ms), addr, PROT_READ)
      ensures Masked(FlagsAt(old(Views(nodes)), addr), PROT_READ) != 0 ==>
        list == old(list) && toDelete == old(toDelete) && g == old(g)
      ensures Masked(FlagsAt(old(Views(nodes)), addr), PROT_READ) == 0 && Installs(FreshViews(ms), addr, PROT_READ) ==>
        list != old(list) && toDelete == old(list) && g == Installed(old(g), g.listNodes, FreshViews(ms))
      ensures Masked(FlagsAt(old(Views(nodes)), addr), PROT_READ) == 0 && !Installs(FreshViews(ms), addr, PROT_READ) ==>
        list == old(list) && toDelete == old(toDelete) && g == old(g).(freedNodes := g.freedNodes) &&
        old(g.freedNodes) <= g.freedNodes
    {
      ret := MapsHasProt(mapList, nodes, addr, ms, PROT_READ);
    }

    /** maps_is_writable. */
    method MapsIsWritable(mapList: MapInfo?, ghost nodes: seq<MapInfo>, addr: Word, ms: seq<Mapping>)
      returns (ret: bv32)
      requires Valid() && refs > 0 && IsList(mapList, nodes) && Ordered(FreshViews(ms))
      modifies this`list, this`toDelete, this`g, g.listNodes`shared, g.listNodes`next
      ensures Valid()
      ensures ret == ProtQuery(old(Views(nodes)), FreshViews(ms), addr, PROT_WRITE)
      ensures Masked(FlagsAt(old(Views(nodes)), addr), PROT_WRITE) != 0 ==>
        list == old(list) && toDelete == old(toDelete) && g == old(g)
      ensures Masked(FlagsAt(old(Views(nodes)), addr), PROT_WRITE) == 0 && Installs(FreshViews(ms), addr, PROT_WRITE) ==>
        list != old(list) && toDelete == old(list) && g == Installed(old(g), g.listNodes, FreshViews(ms))
      ensures Masked(FlagsAt(old(Views(nodes)), addr), PROT_WRITE) == 0 && !Installs(FreshViews(ms), addr, PROT_WRITE) ==>
        list == old(list) && toDelete == old(toDelete) && g == old(g).(freedNodes := g.freedNodes) &&
        old(g.freedNodes) <= g.freedNodes
    {
      ret := MapsHasProt(mapList, nodes, addr, ms, PROT_WRITE);
    }
  }

  /** Starting with no users, count creates (the first of which builds the
      list, built) followed by count - 1 destroys leave the list current with
      one reference; the last destroy releases every node of that list, and
      nothing else has been released on the way. The fresh list caches no
      image, so no image is released. */
  method CreateDestroyBalance(cache: LocalMapCache, ms: seq<Mapping>, count: nat)
    returns (refsBeforeLast: int, currentBeforeLast: bool, ghost built: seq<MapInfo>)
    requires cache.Valid() && cache.refs == 0 && ms != [] && count > 0
    modifies cache
    ensures refsBeforeLast == 1 && currentBeforeLast
    ensures cache.Valid() && cache.list == null && cache.refs == 0 && cache.toDelete == null
    ensures |built| == |ms| && forall k :: 0 <= k < |built| ==> fresh(built[k])
    ensures cache.g.freedNodes == old(cache.g.freedNodes) + NodeSet(built)
    ensures cache.g.freedImages == old(cache.g.freedImages)
  {
    var ret := cache.Create(ms);
    ghost var g1 := cache.g;
    built := g1.listNodes;
    var i := 1;
    while i < count
      invariant 1 <= i <= count && cache.Valid() && cache.refs == i && cache.list != null
      invariant cache.g == g1
    {
      ret := cache.Create(ms);
      i := i + 1;
    }
    while i > 1
      invariant 1 <= i <= count && cache.Valid() && cache.refs == i && cache.list != null
      invariant cache.g == g1
    {
      cache.Destroy();
      i := i - 1;
    }
    refsBeforeLast, currentBeforeLast := cache.refs, cache.list != null;
    cache.Destroy();
    FreshUnowned(ms);
    assert g1.chainViews == [];
    assert FreshViews(ms) + [] == FreshViews(ms);
  }

  /** A cursor taken before a rebuild that installs a new list is invalid
      afterwards; one taken before a rebuild that installs nothing stays
      valid. */
  method CursorAcrossRebuild(cache: LocalMapCache, c: MapCursor, ms: seq<Mapping>, addr: Word, expectedFlags: bv32)
    returns (valid: int)
    requires cache.Valid() && cache.refs > 0 && Ordered(FreshViews(ms))
    modifies cache, cache.g.listNodes`shared, cache.g.listNodes`next, c
    ensures valid == (if Installs(FreshViews(ms), addr, expectedFlags) then -1 else 0)
  {
    cache.CursorGet(c);
    var found := cache.RebuildIfNecessary(ms, addr, expectedFlags);
    valid := cache.CursorValid(c);
  }
}
