/** The map list of src/Los-common.c: singly linked map_info nodes, one per
    memory region of the process, each optionally caching a parsed ELF image,
    and move_cached_elf_data, which hands the cached images of a retiring
    list over to the matching regions of its replacement. */
module MapList {
  import opened Prelude

  const PROT_READ: bv32 := 1
  const PROT_WRITE: bv32 := 2

  /** One region as the OS map enumeration reports it. */
  datatype Mapping = Mapping(start: Word, end: Word, offset: Word, flags: bv32, path: string)

  /** The contents of a map_info node: the region, its cached image (ei.image,
      an allocation identity where 0 stands for NULL), the image size
      (ei.size) and ei_shared, set when another node has taken the image over. */
  datatype Region = Region(start: Word, end: Word, offset: Word, flags: bv32, path: string,
                           image: nat, size: nat, shared: bool)

  /** A node as maps_create_list allocates it: no cached image. */
  function Fresh(m: Mapping): Region
  {
    Region(m.start, m.end, m.offset, m.flags, m.path, 0, 0, false)
  }

  class MapInfo {
    var start: Word
    var end: Word
    var offset: Word
    var flags: bv32
    var path: string
    var image: nat
    var size: nat
    var shared: bool
    var next: MapInfo?

    function View(): Region
      reads this`start, this`end, this`offset, this`flags, this`path, this`image, this`size, this`shared
    {
      Region(start, end, offset, flags, path, image, size, shared)
    }

    constructor (m: Mapping, next: MapInfo?)
      ensures View() == Fresh(m) && this.next == next
    {
      start, end, offset, flags, path := m.start, m.end, m.offset, m.flags, m.path;
      image, size, shared := 0, 0, false;
      this.next := next;
    }
  }

  /** head starts a NULL-terminated chain through exactly the distinct nodes ns. */
  ghost predicate IsList(head: MapInfo?, ns: seq<MapInfo>)
    reads ns`next
  {
    (head == null <==> ns == []) &&
    (ns != [] ==> head == ns[0] && ns[|ns| - 1].next == null) &&
    (forall k :: 0 <= k < |ns| - 1 ==> ns[k].next == ns[k + 1]) &&
    Distinct(ns)
  }

  ghost predicate Distinct(ns: seq<MapInfo>)
  {
    forall a, b :: 0 <= a < b < |ns| ==> ns[a] != ns[b]
  }

  ghost predicate Disjoint(xs: seq<MapInfo>, ys: seq<MapInfo>)
  {
    forall a, b :: 0 <= a < |xs| && 0 <= b < |ys| ==> xs[a] != ys[b]
  }

  /** The contents of the nodes, in list order. */
  function Views(ns: seq<MapInfo>): (vs: seq<Region>)
    reads ns
    ensures |vs| == |ns| && forall k :: 0 <= k < |ns| ==> vs[k] == ns[k].View()
  {
    seq(|ns|, k requires 0 <= k < |ns| reads ns => ns[k].View())
  }

  /** Regions are non-empty, disjoint and in increasing address order, as
      the OS reports them. */
  predicate Ordered(vs: seq<Region>)
  {
    (forall k :: 0 <= k < |vs| ==> vs[k].start < vs[k].end) &&
    (forall a, b :: 0 <= a < b < |vs| ==> vs[a].end <= vs[b].start)
  }

  predicate Contains(v: Region, addr: Word)
  {
    v.start <= addr < v.end
  }

  predicate SameRange(a: Region, b: Region)
  {
    a.start == b.start && a.end == b.end
  }

  // ---------------------------------------------------------------------
  // maps_create_list and map_find_from_addr

  function FreshViews(ms: seq<Mapping>): (vs: seq<Region>)
    ensures |vs| == |ms| && forall k :: 0 <= k < |ms| ==> vs[k] == Fresh(ms[k])
  {
    seq(|ms|, k requires 0 <= k < |ms| => Fresh(ms[k]))
  }

  /** maps_create_list: one freshly allocated node per enumerated region, in
      the enumeration's order, none caching an image; NULL when the
      enumeration yields nothing. */
  method MapsCreateList(ms: seq<Mapping>) returns (head: MapInfo?, ghost ns: seq<MapInfo>)
    ensures IsList(head, ns) && Views(ns) == FreshViews(ms)
    ensures forall n :: n in ns ==> fresh(n)
  {
    head, ns := null, [];
    var k := |ms|;
    while k > 0
      invariant 0 <= k <= |ms| && |ns| == |ms| - k
      invariant IsList(head, ns)
      invariant forall j :: 0 <= j < |ns| ==> ns[j].View() == Fresh(ms[k + j])
      invariant forall n :: n in ns ==> fresh(n)
    {
      k := k - 1;
      var node := new MapInfo(ms[k], head);
      ns := [node] + ns;
      head := node;
    }
    ViewsAre(ns, FreshViews(ms));
  }

  /** The index of the first region holding addr. */
  function FirstContaining(vs: seq<Region>, addr: Word): (r: Option<nat>)
    ensures r.Some? ==> r.value < |vs| && Contains(vs[r.value], addr) &&
                        forall k :: 0 <= k < r.value ==> !Contains(vs[k], addr)
    ensures r.None? ==> forall k :: 0 <= k < |vs| ==> !Contains(vs[k], addr)
  {
    if vs == [] then None
    else if Contains(vs[0], addr) then Some(0)
    else match FirstContaining(vs[1..], addr)
      case None => None
      case Some(k) => Some(k + 1)
  }

  /** In an ordered list at most one region holds an address, so the first
      one found is the region holding it. */
  lemma ContainingIsUnique(vs: seq<Region>, addr: Word, k: nat)
    requires Ordered(vs) && k < |vs| && Contains(vs[k], addr)
    ensures FirstContaining(vs, addr) == Some(k)
  {
  }

  /** map_find_from_addr: the node whose [start, end) holds addr, or NULL. */
  method MapFindFromAddr(head: MapInfo?, ghost ns: seq<MapInfo>, addr: Word) returns (r: MapInfo?)
    requires IsList(head, ns)
    ensures var f := FirstContaining(Views(ns), addr);
      r == if f.Some? then ns[f.value] else null
  {
    r := null;
    var n := head;
    ghost var k := 0;
    while n != null
      invariant 0 <= k <= |ns| && n == (if k < |ns| then ns[k] else null)
      invariant forall j :: 0 <= j < k ==> !Contains(ns[j].View(), addr)
      decreases |ns| - k
    {
      if n.start <= addr < n.end {
        assert Contains(Views(ns)[k], addr);
        ContainingPrefix(Views(ns), addr, k);
        return n;
      }
      n := n.next;
      k := k + 1;
    }
    assert forall j :: 0 <= j < |ns| ==> !Contains(Views(ns)[j], addr);
  }

  lemma ContainingPrefix(vs: seq<Region>, addr: Word, k: nat)
    requires k < |vs| && Contains(vs[k], addr)
    requires forall j :: 0 <= j < k ==> !Contains(vs[j], addr)
    ensures FirstContaining(vs, addr) == Some(k)
  {
  }

  // ---------------------------------------------------------------------
  // move_cached_elf_data

  /** src[k] is the index of the old node whose image new node k received,
      or -1. */
  predicate SrcBounded(src: seq<int>, oldCount: nat)
  {
    forall k :: 0 <= k < |src| ==> -1 <= src[k] < oldCount
  }

  /** The two-cursor pass over the old list O (cursor i) and the new list N
      (cursor j), recording in src which old node each new node's image
      comes from. Old nodes without an image are skipped; the new cursor
      advances while the old node starts at or below the new node, and a
      new node with the old node's exact range receives its image. */
  function Trace(O: seq<Region>, N: seq<Region>, i: nat, j: nat, src: seq<int>): (r: seq<int>)
    requires j <= |N| && |src| == |N| && SrcBounded(src, |O|)
    ensures |r| == |N| && SrcBounded(r, |O|)
    decreases |O| - i + |N| - j
  {
    if i >= |O| then src
    else if O[i].image == 0 then Trace(O, N, i + 1, j, src)
    else if j < |N| && O[i].start <= N[j].start then
      Trace(O, N, i, j + 1, if SameRange(O[i], N[j]) then src[j := i] else src)
    else Trace(O, N, i + 1, j, src)
  }

  function NoSources(count: nat): (src: seq<int>)
    ensures |src| == count && SrcBounded(src, 0)
  {
    seq(count, _ => -1)
  }

  /** Where each new node's image comes from after the whole pass. */
  function Sources(O: seq<Region>, N: seq<Region>): (src: seq<int>)
    ensures |src| == |N| && SrcBounded(src, |O|)
  {
    Trace(O, N, 0, 0, NoSources(|N|))
  }

  /** The new list after the pass: node k holds the image and size of old
      node src[k], if any. */
  function NewAfter(O: seq<Region>, N: seq<Region>, src: seq<int>): (N': seq<Region>)
    requires |src| == |N| && SrcBounded(src, |O|)
    ensures |N'| == |N| && forall k :: 0 <= k < |N| ==> N'[k] == NewAt(O, N, src, k)
  {
    seq(|N|, k requires 0 <= k < |N| => NewAt(O, N, src, k))
  }

  function NewAt(O: seq<Region>, N: seq<Region>, src: seq<int>, k: nat): Region
    requires |src| == |N| && SrcBounded(src, |O|) && k < |N|
  {
    if src[k] >= 0 then N[k].(image := O[src[k]].image, size := O[src[k]].size) else N[k]
  }

  /** The old list after the pass: a node whose image was handed over is
      marked shared. */
  function OldAfter(O: seq<Region>, src: seq<int>): (O': seq<Region>)
    ensures |O'| == |O| && forall m :: 0 <= m < |O| ==> O'[m] == OldAt(O, src, m)
  {
    seq(|O|, m requires 0 <= m < |O| => OldAt(O, src, m))
  }

  function OldAt(O: seq<Region>, src: seq<int>, m: nat): Region
    requires m < |O|
  {
    O[m].(shared := O[m].shared || m in src)
  }

  /** Every recorded hand-over is from an old node with an image and the
      same [start, end) as the receiving new node. */
  predicate SoundSources(O: seq<Region>, N: seq<Region>, src: seq<int>)
    requires |src| == |N| && SrcBounded(src, |O|)
  {
    forall k :: 0 <= k < |N| && src[k] >= 0 ==> O[src[k]].image != 0 && SameRange(O[src[k]], N[k])
  }

  lemma {:induction false} TraceSound(O: seq<Region>, N: seq<Region>, i: nat, j: nat, src: seq<int>)
    requires j <= |N| && |src| == |N| && SrcBounded(src, |O|) && SoundSources(O, N, src)
    ensures SoundSources(O, N, Trace(O, N, i, j, src))
    decreases |O| - i + |N| - j
  {
    if i >= |O| {
    } else if O[i].image == 0 {
      TraceSound(O, N, i + 1, j, src);
    } else if j < |N| && O[i].start <= N[j].start {
      var src' := if SameRange(O[i], N[j]) then src[j := i] else src;
      assert SoundSources(O, N, src');
      TraceSound(O, N, i, j + 1, src');
    } else {
      TraceSound(O, N, i + 1, j, src);
    }
  }

  /** Soundness of the migration: a new node either keeps its contents or
      takes the image and size of an old node that had an image and exactly
      the same range, and that old node is then marked shared; an old node
      is marked shared only if its image went to a new node of the same
      range; nothing else in either list changes, and old nodes without an
      image are untouched. */
  lemma MigrationSound(O: seq<Region>, N: seq<Region>)
    ensures var src := Sources(O, N);
      var O' := OldAfter(O, src);
      var N' := NewAfter(O, N, src);
      |O'| == |O| && |N'| == |N| &&
      (forall k :: 0 <= k < |N| ==>
        N'[k] == N[k] ||
        exists m :: 0 <= m < |O| && O[m].image != 0 && SameRange(O[m], N[k]) && O'[m].shared &&
                    N'[k] == N[k].(image := O[m].image, size := O[m].size)) &&
      (forall m :: 0 <= m < |O| ==> O'[m] == O[m].(shared := O'[m].shared)) &&
      (forall m :: 0 <= m < |O| && O'[m].shared && !O[m].shared ==>
        O[m].image != 0 &&
        exists k :: 0 <= k < |N| && SameRange(O[m], N[k]) && N'[k].image == O[m].image && N'[k].size == O[m].size) &&
      (forall m :: 0 <= m < |O| && O[m].image == 0 ==> O'[m] == O[m])
  {
    var src := Sources(O, N);
    TraceSound(O, N, 0, 0, NoSources(|N|));
    var O' := OldAfter(O, src);
    var N' := NewAfter(O, N, src);
    forall k | 0 <= k < |N| && src[k] >= 0
      ensures exists m :: 0 <= m < |O| && O[m].image != 0 && SameRange(O[m], N[k]) && O'[m].shared &&
                          N'[k] == N[k].(image := O[m].image, size := O[m].size)
    {
      var m := src[k];
      assert m in src;
      assert O'[m].shared;
    }
    forall m | 0 <= m < |O| && O'[m].shared && !O[m].shared
      ensures O[m].image != 0 &&
        exists k :: 0 <= k < |N| && SameRange(O[m], N[k]) && N'[k].image == O[m].image && N'[k].size == O[m].size
    {
      var k :| 0 <= k < |src| && src[k] == m;
      assert N'[k].image == O[m].image;
    }
  }

  /** When the new list is ordered, no two new nodes receive the image of the
      same old node, so every handed-over image has a single new owner. */
  lemma MigrationInjective(O: seq<Region>, N: seq<Region>)
    requires Ordered(N)
    ensures var src := Sources(O, N);
      forall a, b :: 0 <= a < b < |N| && src[a] >= 0 ==> src[a] != src[b]
  {
    TraceSound(O, N, 0, 0, NoSources(|N|));
    var src := Sources(O, N);
    forall a, b | 0 <= a < b < |N| && src[a] >= 0
      ensures src[a] != src[b]
    {
      assert N[a].start < N[a].end <= N[b].start;
    }
  }

  /** The pass is not complete. With old regions A = [0, 16) and
      B = [16, 32), both caching an image, and a new list holding the same
      two ranges, the inner loop runs past the new B while handling A (the
      new B starts above A), so when B's turn comes the new cursor is
      exhausted and B's image is never handed over. */
  lemma MigrationMissesSecondMatch()
    ensures var O := [Region(0, 16, 0, 5, [], 1, 100, false), Region(16, 32, 0, 5, [], 2, 200, false)];
      var N := [Region(0, 16, 0, 5, [], 0, 0, false), Region(16, 32, 0, 5, [], 0, 0, false)];
      Ordered(O) && Ordered(N) && SameRange(O[1], N[1]) && O[1].image != 0 &&
      Sources(O, N) == [0, -1] && NewAfter(O, N, Sources(O, N))[1].image == 0
  {
    var O := [Region(0, 16, 0, 5, [], 1, 100, false), Region(16, 32, 0, 5, [], 2, 200, false)];
    var N := [Region(0, 16, 0, 5, [], 0, 0, false), Region(16, 32, 0, 5, [], 0, 0, false)];
    var s0 := NoSources(2);
    assert s0 == [-1, -1];
    assert Trace(O, N, 0, 0, s0) == Trace(O, N, 0, 1, [0, -1]);
    assert Trace(O, N, 0, 1, [0, -1]) == Trace(O, N, 0, 2, [0, -1]);
    assert Trace(O, N, 0, 2, [0, -1]) == Trace(O, N, 1, 2, [0, -1]);
    assert Trace(O, N, 1, 2, [0, -1]) == Trace(O, N, 2, 2, [0, -1]);
  }

  /** One hand-over: new node n takes old node o's image and size, and o is
      marked shared. */
  method HandOver(o: MapInfo, n: MapInfo, ghost olds: seq<MapInfo>, ghost news: seq<MapInfo>,
                  ghost O: seq<Region>, ghost N: seq<Region>, ghost src: seq<int>, ghost i: nat, ghost j: nat)
    requires Distinct(olds) && Distinct(news) && Disjoint(olds, news)
    requires i < |olds| == |O| && o == olds[i] && j < |news| == |N| && n == news[j]
    requires |src| == |N| && SrcBounded(src, |O|) && src[j] == -1 && O[i].image != 0
    requires forall m :: 0 <= m < |olds| ==> olds[m].View() == OldAt(O, src, m)
    requires forall k :: 0 <= k < |news| ==> news[k].View() == NewAt(O, N, src, k)
    modifies o`shared, n`image, n`size
    ensures forall m :: 0 <= m < |olds| ==> olds[m].View() == OldAt(O, src[j := i], m)
    ensures forall k :: 0 <= k < |news| ==> news[k].View() == NewAt(O, N, src[j := i], k)
  {
    n.size := o.size;
    n.image := o.image;
    o.shared := true;
    assert src[j := i][j] == i;
    forall m | 0 <= m < |O| && m != i
      ensures (m in src[j := i]) == (m in src)
    {
      if m in src {
        var k :| 0 <= k < |src| && src[k] == m;
        assert src[j := i][k] == m;
      }
    }
  }

  lemma ViewsAre(ns: seq<MapInfo>, vs: seq<Region>)
    requires |ns| == |vs| && forall k :: 0 <= k < |ns| ==> ns[k].View() == vs[k]
    ensures Views(ns) == vs
  {
  }

  /** The state of the pass between steps: src records the hand-overs so
      far, the new nodes from the cursor on are untouched, and the nodes'
      contents are the snapshots O and N updated by src. */
  ghost predicate PassState(olds: seq<MapInfo>, news: seq<MapInfo>, O: seq<Region>, N: seq<Region>,
                            j: nat, src: seq<int>)
    reads olds, news
  {
    |olds| == |O| && |news| == |N| && j <= |N| && |src| == |N| && SrcBounded(src, |O|) &&
    (forall k :: j <= k < |N| ==> src[k] == -1) &&
    (forall m :: 0 <= m < |olds| ==> olds[m].View() == OldAt(O, src, m)) &&
    (forall k :: 0 <= k < |news| ==> news[k].View() == NewAt(O, N, src, k))
  }

  /** One iteration of that inner loop: new node n = news[j] takes o's image
      when their ranges agree, and the new cursor moves on. */
  method NewCursorStep(o: MapInfo, n: MapInfo, ghost olds: seq<MapInfo>, ghost newList: MapInfo?, ghost news: seq<MapInfo>,
                       ghost O: seq<Region>, ghost N: seq<Region>, ghost i: nat, ghost j: nat, ghost src: seq<int>)
    returns (n': MapInfo?, ghost src': seq<int>)
    requires Distinct(olds) && IsList(newList, news) && Disjoint(olds, news)
    requires PassState(olds, news, O, N, j, src) && j < |news| && n == news[j]
    requires i < |olds| && o == olds[i] && O[i].image != 0 && o.start <= n.start
    modifies o`shared, n`image, n`size
    ensures PassState(olds, news, O, N, j + 1, src') && n' == (if j + 1 < |news| then news[j + 1] else null)
    ensures Trace(O, N, i, j + 1, src') == Trace(O, N, i, j, src)
  {
    assert olds[i].View() == OldAt(O, src, i) && news[j].View() == NewAt(O, N, src, j);
    src' := src;
    if o.start == n.start && o.end == n.end {
      HandOver(o, n, olds, news, O, N, src, i, j);
      src' := src[j := i];
    }
    n' := n.next;
  }

  /** The inner loop of move_cached_elf_data for old node o = olds[i]: the
      new cursor advances while o starts at or below the new node, handing
      o's image to a new node of the same range. */
  method AdvanceNewCursor(o: MapInfo, n0: MapInfo?, ghost olds: seq<MapInfo>, ghost newList: MapInfo?, ghost news: seq<MapInfo>,
                          ghost O: seq<Region>, ghost N: seq<Region>, ghost i: nat, ghost j0: nat,
                          ghost src0: seq<int>)
    returns (n: MapInfo?, ghost j: nat, ghost src: seq<int>)
    requires Distinct(olds) && IsList(newList, news) && Disjoint(olds, news)
    requires PassState(olds, news, O, N, j0, src0) && n0 == (if j0 < |news| then news[j0] else null)
    requires i < |olds| && o == olds[i] && O[i].image != 0
    modifies olds`shared, news`image, news`size
    ensures PassState(olds, news, O, N, j, src) && n == (if j < |news| then news[j] else null)
    ensures j0 <= j && !(j < |N| && O[i].start <= N[j].start)
    ensures Trace(O, N, i, j, src) == Trace(O, N, i, j0, src0)
  {
    n, j, src := n0, j0, src0;
    ghost var t := Trace(O, N, i, j0, src0);
    while n != null && o.start <= n.start
      invariant j0 <= j && PassState(olds, news, O, N, j, src)
      invariant n == (if j < |news| then news[j] else null)
      invariant Trace(O, N, i, j, src) == t
      decreases |news| - j
    {
      n, src := NewCursorStep(o, n, olds, newList, news, O, N, i, j, src);
      j := j + 1;
    }
    if j < |news| {
      assert news[j].View() == NewAt(O, N, src, j);
    }
  }

  lemma PassStateInitially(olds: seq<MapInfo>, news: seq<MapInfo>)
    ensures PassState(olds, news, Views(olds), Views(news), 0, NoSources(|news|))
  {
    var src := NoSources(|news|);
    forall m | 0 <= m < |olds|
      ensures olds[m].View() == OldAt(Views(olds), src, m)
    {
      assert m !in src;
    }
  }

  /** One iteration of the outer loop of move_cached_elf_data, for old node
      o = olds[i]: skipped when it caches no image, otherwise the inner loop
      runs; either way the old cursor moves on. */
  method OldCursorStep(o: MapInfo, n: MapInfo?, ghost oldList: MapInfo?, ghost olds: seq<MapInfo>,
                       ghost newList: MapInfo?, ghost news: seq<MapInfo>, ghost O: seq<Region>, ghost N: seq<Region>,
                       ghost i: nat, ghost j: nat, ghost src: seq<int>)
    returns (o': MapInfo?, n': MapInfo?, ghost j': nat, ghost src': seq<int>)
    requires IsList(oldList, olds) && IsList(newList, news) && Disjoint(olds, news)
    requires PassState(olds, news, O, N, j, src) && n == (if j < |news| then news[j] else null)
    requires i < |olds| && o == olds[i]
    modifies olds`shared, news`image, news`size
    ensures IsList(oldList, olds) && IsList(newList, news)
    ensures PassState(olds, news, O, N, j', src') && n' == (if j' < |news| then news[j'] else null)
    ensures o' == (if i + 1 < |olds| then olds[i + 1] else null)
    ensures j <= j' && Trace(O, N, i + 1, j', src') == Trace(O, N, i, j, src)
  {
    assert olds[i].View() == OldAt(O, src, i);
    o' := o.next;
    if o.image == 0 {
      n', j', src' := n, j, src;
      return;
    }
    n', j', src' := AdvanceNewCursor(o, n, olds, newList, news, O, N, i, j, src);
  }

  /** move_cached_elf_data: the two-cursor pass itself, over the nodes of the
      old list (olds) and of the new list (news); steps counts the iterations
      of both loops. */
  method MoveCachedElfData(oldList: MapInfo?, ghost olds: seq<MapInfo>, newList: MapInfo?, ghost news: seq<MapInfo>)
    returns (ghost steps: nat)
    requires IsList(oldList, olds) && IsList(newList, news) && Disjoint(olds, news)
    modifies olds`shared, news`image, news`size
    ensures IsList(oldList, olds) && IsList(newList, news)
    ensures var src := Sources(old(Views(olds)), old(Views(news)));
      Views(olds) == OldAfter(old(Views(olds)), src) &&
      Views(news) == NewAfter(old(Views(olds)), old(Views(news)), src)
    ensures steps <= |olds| + |news|
  {
    ghost var O := Views(olds);
    ghost var N := Views(news);
    PassStateInitially(olds, news);
    ghost var src;
    steps, src := Walk(oldList, olds, newList, news, O, N);
    ViewsAre(olds, OldAfter(O, src));
    ViewsAre(news, NewAfter(O, N, src));
  }

  /** The loops of move_cached_elf_data, from the initial state of the pass
      over the snapshots O and N to its end, where src is Sources(O, N). */
  method Walk(oldList: MapInfo?, ghost olds: seq<MapInfo>, newList: MapInfo?, ghost news: seq<MapInfo>,
              ghost O: seq<Region>, ghost N: seq<Region>)
    returns (ghost steps: nat, ghost src: seq<int>)
    requires IsList(oldList, olds) && IsList(newList, news) && Disjoint(olds, news)
    requires PassState(olds, news, O, N, 0, NoSources(|N|))
    modifies olds`shared, news`image, news`size
    ensures IsList(oldList, olds) && IsList(newList, news)
    ensures src == Sources(O, N) && |src| == |N| && SrcBounded(src, |O|)
    ensures forall m :: 0 <= m < |olds| ==> olds[m].View() == OldAt(O, src, m)
    ensures forall k :: 0 <= k < |news| ==> news[k].View() == NewAt(O, N, src, k)
    ensures steps <= |olds| + |news|
  {
    ghost var final := Sources(O, N);
    src := NoSources(|N|);
    ghost var i, j := 0, 0;
    steps := 0;
    var o, n := oldList, newList;
    while o != null
      invariant 0 <= i <= |olds| && steps == i + j
      invariant IsList(oldList, olds) && IsList(newList, news)
      invariant o == (if i < |olds| then olds[i] else null)
      invariant n == (if j < |news| then news[j] else null)
      invariant PassState(olds, news, O, N, j, src)
      invariant Trace(O, N, i, j, src) == final
      decreases |olds| - i
    {
      ghost var j0 := j;
      o, n, j, src := OldCursorStep(o, n, oldList, olds, newList, news, O, N, i, j, src);
      i, steps := i + 1, steps + 1 + (j - j0);
    }
  }
}
