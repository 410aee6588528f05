/** The symbol resolver of src/elfxx.c: lookup_symbol, which scans the
    symbol tables of an image for the nearest function symbol enclosing an
    address, and get_proc_name_in_image, which runs that scan over the image
    and then over its MiniDebugInfo image, threading the running minimum
    distance through both. */
module Symbols {
  import opened Prelude
  import opened ElfImage

  const UNW_ENOMEM: int := 2
  const UNW_ENOINFO: int := 10

  /** A function symbol the scan weighs: its run-time address (after
      tdep_get_func_addr and relocation), its st_size and its name. */
  datatype Cand = Cand(addr: Word, size: Word, name: seq<byte>)

  /** (Elf64_Addr) (ip - addr): how far ip lies above addr, modulo 2^64. */
  function Dist(ip: Word, addr: Word): Word
  {
    SubW(ip, addr)
  }

  /** The candidate's extent, taken modulo 2^64, holds ip. */
  predicate Encloses(ip: Word, c: Cand)
  {
    Dist(ip, c.addr) < c.size
  }

  /** For a symbol whose extent does not wrap past 2^64, the unsigned
      distance test is exactly addr <= ip < addr + size: the wrap-around of
      ip - addr is what rejects symbols that start above ip. */
  lemma EnclosesIffWithin(ip: Word, c: Cand)
    requires c.addr + c.size <= WORD
    ensures Encloses(ip, c) <==> c.addr <= ip < c.addr + c.size
  {
    if ip < c.addr {
      assert Dist(ip, c.addr) == WORD - (c.addr - ip);
    }
  }

  // ---------------------------------------------------------------------
  // The symbol tables as the scan walks them

  predicate IsSymtab(sh: Shdr)
  {
    sh.shType == SHT_SYMTAB || sh.shType == SHT_DYNSYM
  }

  /** ELF64_ST_TYPE (st_info) == STT_FUNC and st_shndx != SHN_UNDEF. */
  predicate IsDefinedFunc(s: Sym)
  {
    s.info % 16 == STT_FUNC && s.shndx != SHN_UNDEF
  }

  /** Byte offset of symbol slot k (the table is strided by sh_entsize). */
  function SymOffset(sh: Shdr, k: nat): nat
  {
    sh.offset + k * sh.entsize
  }

  /** Consecutive slots lie sh_entsize bytes apart. */
  lemma SymOffsetNext(sh: Shdr, k: nat)
    ensures SymOffset(sh, k + 1) == SymOffset(sh, k) + sh.entsize
  {
    assert (k + 1) * sh.entsize == k * sh.entsize + sh.entsize;
  }

  /** Slot k starts before the table end sh_offset + sh_size. */
  predicate InTable(sh: Shdr, k: nat)
  {
    SymOffset(sh, k) < sh.offset + sh.size
  }

  /** What the scan of one symbol table needs of the image beyond what the
      source checks: when the table is walked at all (a non-zero stride),
      every slot's symbol inside the image, and a NUL-terminated name for
      every defined function symbol whose address tdep_get_func_addr
      resolves (the only ones whose name is read). */
  ghost predicate SymtabReadable(o: Oracles, img: Image, sh: Shdr, strOff: nat)
  {
    sh.entsize > 0 ==>
      forall k :: InTable(sh, k) ==>
        SymOffset(sh, k) + SYM_SIZE <= |img| &&
        (IsDefinedFunc(ReadSym(img, SymOffset(sh, k))) && o.funcAddr(ReadSym(img, SymOffset(sh, k)).value).Some? ==>
          Terminated(img, strOff + ReadSym(img, SymOffset(sh, k)).name))
  }

  /** As written, the inner loop of lookup_symbol advances by sh_entsize and
      never checks it: with a zero stride every slot is the first one, which
      lies in a non-empty table, so the loop never ends. */
  lemma ZeroStrideNeverAdvances(sh: Shdr, k: nat)
    requires sh.entsize == 0 && sh.size > 0
    ensures SymOffset(sh, k) == sh.offset && InTable(sh, k) && SymOffset(sh, k + 1) == SymOffset(sh, k)
  {
  }

  /** Section header i and, for a symbol table whose linked string table
      validates, its symbols can be read. */
  ghost predicate SectionReadable(o: Oracles, img: Image, i: nat)
    requires |img| >= EHDR_SIZE
  {
    ShdrReadable(img, ReadEhdr(img), i) &&
    (IsSymtab(ShdrAt(img, i)) ==>
      StrShdrReadable(img, ShdrAt(img, i).link) &&
      (StringTable(img, ShdrAt(img, i).link).Some? ==>
        SymtabReadable(o, img, ShdrAt(img, i), StringTable(img, ShdrAt(img, i).link).value)))
  }

  /** What lookup_symbol needs of an image valid_object accepts, beyond
      what it checks: a whole ELF header, and the headers, symbols and names
      it reads. Of an image valid_object rejects it needs nothing. */
  ghost predicate LookupReadable(o: Oracles, img: Image)
  {
    o.validObject(img) ==>
      |img| >= EHDR_SIZE &&
      (SectionTable(img).Some? ==>
        forall i :: 0 <= i < ReadEhdr(img).shnum ==> SectionReadable(o, img, i))
  }

  /** The candidate in symbol slot k, if the slot holds a defined function
      symbol whose address tdep_get_func_addr resolves; SHN_ABS values are
      not relocated, all others get loadOffset added. */
  function SlotCand(o: Oracles, img: Image, sh: Shdr, strOff: nat, loadOffset: Word, k: nat): (r: Option<Cand>)
    requires sh.entsize > 0 && InTable(sh, k) && SymtabReadable(o, img, sh, strOff)
    ensures var s := ReadSym(img, SymOffset(sh, k));
      (r.Some? <==> IsDefinedFunc(s) && o.funcAddr(s.value).Some?) &&
      (r.Some? ==> r.value.size == s.size && NoNul(r.value.name) &&
                   r.value.name == CString(img, strOff + s.name))
  {
    var s := ReadSym(img, SymOffset(sh, k));
    if !IsDefinedFunc(s) then None
    else match o.funcAddr(s.value)
      case None => None
      case Some(v) =>
        Some(Cand(if s.shndx != SHN_ABS then AddW(v, loadOffset) else v, s.size,
                  CString(img, strOff + s.name)))
  }

  /** The candidates of the table's slots from k on. A table whose stride
      is zero yields none: that is the intended behaviour, where the source
      as written never leaves the table (ZeroStrideNeverAdvances). */
  function SymCands(o: Oracles, img: Image, sh: Shdr, strOff: nat, loadOffset: Word, k: nat): seq<Cand>
    requires SymtabReadable(o, img, sh, strOff)
    decreases sh.offset + sh.size - SymOffset(sh, k)
  {
    if sh.entsize == 0 || !InTable(sh, k) then []
    else
      SymOffsetNext(sh, k);
      (match SlotCand(o, img, sh, strOff, loadOffset, k) case None => [] case Some(c) => [c]) +
      SymCands(o, img, sh, strOff, loadOffset, k + 1)
  }

  /** The reads of symbol slot k stay inside the image. */
  lemma SlotReadable(o: Oracles, img: Image, sh: Shdr, strOff: nat, k: nat)
    requires sh.entsize > 0 && InTable(sh, k) && SymtabReadable(o, img, sh, strOff)
    ensures SymOffset(sh, k) + SYM_SIZE <= |img|
    ensures IsDefinedFunc(ReadSym(img, SymOffset(sh, k))) && o.funcAddr(ReadSym(img, SymOffset(sh, k)).value).Some? ==>
      Terminated(img, strOff + ReadSym(img, SymOffset(sh, k)).name)
  {
  }

  /** Scanning a table from slot k is weighing slot k's candidate, if any,
      then scanning from slot k + 1. */
  lemma FoldSymCandsStep(o: Oracles, img: Image, sh: Shdr, strOff: nat, loadOffset: Word, k: nat,
                         b: Best, ip: Word, bufLen: nat)
    requires sh.entsize > 0 && InTable(sh, k) && SymtabReadable(o, img, sh, strOff)
    ensures SymOffset(sh, k + 1) == SymOffset(sh, k) + sh.entsize
    ensures var slot := SlotCand(o, img, sh, strOff, loadOffset, k);
      Fold(b, SymCands(o, img, sh, strOff, loadOffset, k), ip, bufLen) ==
      Fold(if slot.Some? then Step(b, slot.value, ip, bufLen) else b,
           SymCands(o, img, sh, strOff, loadOffset, k + 1), ip, bufLen)
  {
    SymOffsetNext(sh, k);
    var slot := SlotCand(o, img, sh, strOff, loadOffset, k);
    var rest := SymCands(o, img, sh, strOff, loadOffset, k + 1);
    if slot.Some? {
      assert SymCands(o, img, sh, strOff, loadOffset, k) == [slot.value] + rest;
      assert ([slot.value] + rest)[1..] == rest;
    } else {
      assert SymCands(o, img, sh, strOff, loadOffset, k) == rest;
    }
  }

  /** The candidates of section i: none unless it is a SHT_SYMTAB or
      SHT_DYNSYM section whose linked string table validates. */
  function SectionCands(o: Oracles, img: Image, loadOffset: Word, i: nat): seq<Cand>
    requires |img| >= EHDR_SIZE && SectionReadable(o, img, i)
  {
    var sh := ShdrAt(img, i);
    if !IsSymtab(sh) then []
    else match StringTable(img, sh.link)
      case None => []
      case Some(strOff) => SymCands(o, img, sh, strOff, loadOffset, 0)
  }

  function CandsFrom(o: Oracles, img: Image, loadOffset: Word, i: nat): seq<Cand>
    requires |img| >= EHDR_SIZE
    requires forall j :: i <= j < ReadEhdr(img).shnum ==> SectionReadable(o, img, j)
    decreases ReadEhdr(img).shnum - i
  {
    if i >= ReadEhdr(img).shnum then []
    else SectionCands(o, img, loadOffset, i) + CandsFrom(o, img, loadOffset, i + 1)
  }

  /** Every candidate lookup_symbol weighs, in scan order (section order,
      then symbol order); none when valid_object fails or the section
      header table is unavailable. */
  function Cands(o: Oracles, img: Image, loadOffset: Word): (r: seq<Cand>)
    requires LookupReadable(o, img)
    ensures !o.validObject(img) || SectionTable(img).None? ==> r == []
  {
    if !o.validObject(img) || SectionTable(img).None? then []
    else CandsFrom(o, img, loadOffset, 0)
  }

  // ---------------------------------------------------------------------
  // The running minimum

  /** The scan's state: *min_dist, ret, and the last accepted candidate
      (whose name is what buf holds). */
  datatype Best = Best(minDist: Word, ret: int, winner: Option<Cand>)

  /** ret after copying name into a buffer of bufLen bytes. */
  function NameResult(name: seq<byte>, bufLen: nat): int
  {
    if |name| >= bufLen then -UNW_ENOMEM else 0
  }

  /** One candidate: accepted when its distance below ip is under both the
      running minimum and its st_size. */
  function Step(b: Best, c: Cand, ip: Word, bufLen: nat): (r: Best)
    ensures r.minDist <= b.minDist
    ensures r.minDist < b.minDist <==> Encloses(ip, c) && Dist(ip, c.addr) < b.minDist
    ensures r.minDist < b.minDist ==> r == Best(Dist(ip, c.addr), NameResult(c.name, bufLen), Some(c))
    ensures r.minDist == b.minDist ==> r == b
  {
    var d := Dist(ip, c.addr);
    if d < b.minDist && d < c.size then Best(d, NameResult(c.name, bufLen), Some(c)) else b
  }

  /** The scan over cs from state b; the running minimum never grows. */
  function Fold(b: Best, cs: seq<Cand>, ip: Word, bufLen: nat): (r: Best)
    ensures r.minDist <= b.minDist
    decreases |cs|
  {
    if cs == [] then b else Fold(Step(b, cs[0], ip, bufLen), cs[1..], ip, bufLen)
  }

  /** When the running minimum stays put nothing was accepted; when it
      drops, it is the distance of an enclosing candidate whose name decided
      ret. */
  lemma {:induction false} FoldSettles(b: Best, cs: seq<Cand>, ip: Word, bufLen: nat)
    ensures Fold(b, cs, ip, bufLen).minDist == b.minDist ==> Fold(b, cs, ip, bufLen) == b
    ensures Fold(b, cs, ip, bufLen).minDist < b.minDist ==>
      var r := Fold(b, cs, ip, bufLen);
      r.winner.Some? && r.winner.value in cs && Encloses(ip, r.winner.value) &&
      r.minDist == Dist(ip, r.winner.value.addr) && r.ret == NameResult(r.winner.value.name, bufLen)
    decreases |cs|
  {
    if cs != [] {
      var b1 := Step(b, cs[0], ip, bufLen);
      FoldSettles(b1, cs[1..], ip, bufLen);
      var r := Fold(b1, cs[1..], ip, bufLen);
      if r.minDist < b1.minDist {
        assert r.winner.value in cs[1..];
      }
    }
  }

  /** Candidates no nearer than the running minimum change nothing. */
  lemma {:induction false} FoldNoCloser(b: Best, cs: seq<Cand>, ip: Word, bufLen: nat)
    requires forall j :: 0 <= j < |cs| && Encloses(ip, cs[j]) ==> Dist(ip, cs[j].addr) >= b.minDist
    ensures Fold(b, cs, ip, bufLen) == b
    decreases |cs|
  {
    if cs != [] {
      assert Step(b, cs[0], ip, bufLen) == b;
      FoldNoCloser(b, cs[1..], ip, bufLen);
    }
  }

  /** cs[w] is the nearest enclosing candidate, nearer than bound, and the
      first of those at that distance. */
  predicate FirstNearest(cs: seq<Cand>, w: nat, ip: Word, bound: Word)
  {
    w < |cs| && Encloses(ip, cs[w]) && Dist(ip, cs[w].addr) < bound &&
    (forall j :: 0 <= j < w && Encloses(ip, cs[j]) ==> Dist(ip, cs[j].addr) > Dist(ip, cs[w].addr)) &&
    (forall j :: w < j < |cs| && Encloses(ip, cs[j]) ==> Dist(ip, cs[j].addr) >= Dist(ip, cs[w].addr))
  }

  /** The scan ends holding the nearest enclosing candidate, the earliest
      one on ties: an equal-distance later symbol never displaces it. */
  lemma {:induction false} FoldPicksFirstNearest(b: Best, cs: seq<Cand>, w: nat, ip: Word, bufLen: nat)
    requires FirstNearest(cs, w, ip, b.minDist)
    ensures Fold(b, cs, ip, bufLen) ==
      Best(Dist(ip, cs[w].addr), NameResult(cs[w].name, bufLen), Some(cs[w]))
    decreases |cs|
  {
    var b1 := Step(b, cs[0], ip, bufLen);
    if w == 0 {
      FoldNoCloser(b1, cs[1..], ip, bufLen);
    } else {
      assert FirstNearest(cs[1..], w - 1, ip, b1.minDist);
      FoldPicksFirstNearest(b1, cs[1..], w - 1, ip, bufLen);
    }
  }

  /** Either no enclosing candidate is nearer than bound, or a first
      nearest one exists. */
  lemma {:induction false} NearestExists(cs: seq<Cand>, ip: Word, bound: Word)
    ensures (forall j :: 0 <= j < |cs| && Encloses(ip, cs[j]) ==> Dist(ip, cs[j].addr) >= bound) ||
            exists w: nat :: FirstNearest(cs, w, ip, bound)
    decreases |cs|
  {
    if cs != [] {
      var d0 := Dist(ip, cs[0].addr);
      if Encloses(ip, cs[0]) && d0 < bound {
        NearestExists(cs[1..], ip, d0);
        if forall j :: 0 <= j < |cs[1..]| && Encloses(ip, cs[1..][j]) ==> Dist(ip, cs[1..][j].addr) >= d0 {
          assert FirstNearest(cs, 0, ip, bound);
        } else {
          var w: nat :| FirstNearest(cs[1..], w, ip, d0);
          assert FirstNearest(cs, w + 1, ip, bound);
        }
      } else {
        NearestExists(cs[1..], ip, bound);
        if !(forall j :: 0 <= j < |cs[1..]| && Encloses(ip, cs[1..][j]) ==> Dist(ip, cs[1..][j].addr) >= bound) {
          var w: nat :| FirstNearest(cs[1..], w, ip, bound);
          assert FirstNearest(cs, w + 1, ip, bound);
        }
      }
    }
  }

  /** Scanning two candidate lists in a row, passing the state along, is
      scanning their concatenation. */
  lemma {:induction false} FoldConcat(b: Best, xs: seq<Cand>, ys: seq<Cand>, ip: Word, bufLen: nat)
    ensures Fold(b, xs + ys, ip, bufLen) == Fold(Fold(b, xs, ip, bufLen), ys, ip, bufLen)
    decreases |xs|
  {
    if xs != [] {
      assert (xs + ys)[0] == xs[0];
      assert (xs + ys)[1..] == xs[1..] + ys;
      FoldConcat(Step(b, xs[0], ip, bufLen), xs[1..], ys, ip, bufLen);
    } else {
      assert xs + ys == ys;
    }
  }

  /** Acceptance depends only on the running minimum: two scans from the
      same minimum move it alike, and once either accepts they agree. */
  lemma {:induction false} FoldSameTrajectory(m: Word, x: int, wx: Option<Cand>, y: int, wy: Option<Cand>,
                                              cs: seq<Cand>, ip: Word, bufLen: nat)
    ensures Fold(Best(m, x, wx), cs, ip, bufLen).minDist == Fold(Best(m, y, wy), cs, ip, bufLen).minDist
    ensures Fold(Best(m, y, wy), cs, ip, bufLen).minDist < m ==>
      Fold(Best(m, x, wx), cs, ip, bufLen) == Fold(Best(m, y, wy), cs, ip, bufLen)
    decreases |cs|
  {
    if cs != [] {
      var bx := Step(Best(m, x, wx), cs[0], ip, bufLen);
      var bY := Step(Best(m, y, wy), cs[0], ip, bufLen);
      if bx.minDist < m {
        assert bx == bY;
        FoldSettles(bY, cs[1..], ip, bufLen);
      } else {
        FoldSameTrajectory(m, x, wx, y, wy, cs[1..], ip, bufLen);
      }
    }
  }

  // ---------------------------------------------------------------------
  // The name buffer

  /** buf after strncpy (buf, name, bufLen) and buf[bufLen - 1] = '\0'. */
  function Truncated(name: seq<byte>, bufLen: nat): seq<byte>
    requires bufLen > 0
  {
    seq(bufLen, t requires 0 <= t < bufLen => if t < bufLen - 1 && t < |name| then name[t] else 0)
  }

  /** The buffer holds the first bufLen - 1 bytes of the name (all of it if
      shorter) followed by a NUL, and ret reports -UNW_ENOMEM exactly when
      that loses part of the name. */
  lemma TruncatedName(name: seq<byte>, bufLen: nat)
    requires bufLen > 0 && NoNul(name)
    ensures var buf := Truncated(name, bufLen);
      var kept := if |name| < bufLen then |name| else bufLen - 1;
      |buf| == bufLen && buf[bufLen - 1] == 0 && buf[kept] == 0 &&
      buf[..kept] == name[..kept] && NoNul(buf[..kept]) &&
      (NameResult(name, bufLen) == -UNW_ENOMEM <==> kept < |name|) &&
      (NameResult(name, bufLen) == 0 <==> kept == |name|)
  {
  }

  /** "a_very_long_function_name" into an 8-byte buffer keeps "a_very_"
      and reports truncation. */
  lemma TruncationExample()
    ensures var name: seq<byte> := [0x61, 0x5f, 0x76, 0x65, 0x72, 0x79, 0x5f, 0x6c, 0x6f, 0x6e, 0x67, 0x5f,
                                   0x66, 0x75, 0x6e, 0x63, 0x74, 0x69, 0x6f, 0x6e, 0x5f, 0x6e, 0x61, 0x6d, 0x65];
      Truncated(name, 8) == [0x61, 0x5f, 0x76, 0x65, 0x72, 0x79, 0x5f, 0] &&
      NameResult(name, 8) == -UNW_ENOMEM
  {
    var name: seq<byte> := [0x61, 0x5f, 0x76, 0x65, 0x72, 0x79, 0x5f, 0x6c, 0x6f, 0x6e, 0x67, 0x5f,
                           0x66, 0x75, 0x6e, 0x63, 0x74, 0x69, 0x6f, 0x6e, 0x5f, 0x6e, 0x61, 0x6d, 0x65];
    assert |name| == 25;
    assert Truncated(name, 8) == [0x61, 0x5f, 0x76, 0x65, 0x72, 0x79, 0x5f, 0];
  }

  /** strncpy (buf, name, buf_len); buf[buf_len - 1] = '\0'. */
  method CopyName(buf: array<byte>, name: seq<byte>)
    requires buf.Length > 0
    modifies buf
    ensures buf[..] == Truncated(name, buf.Length)
  {
    var j := 0;
    while j < buf.Length
      invariant 0 <= j <= buf.Length
      invariant forall t :: 0 <= t < j ==> buf[t] == if t < |name| then name[t] else 0
    {
      buf[j] := if j < |name| then name[j] else 0;
      j := j + 1;
    }
    buf[buf.Length - 1] := 0;
  }

  // ---------------------------------------------------------------------
  // lookup_symbol

  /** The buffer after a scan ending in state r. */
  function BufferAfter(r: Best, before: seq<byte>, bufLen: nat): seq<byte>
    requires bufLen > 0
  {
    if r.winner.Some? then Truncated(r.winner.value.name, bufLen) else before
  }

  /** The body of lookup_symbol's inner loop: weighs the symbol in slot k
      (at byte offset off) against the state (minDist, ret0, and the ghost
      winner w0 whose name buf holds). */
  method WeighSymbol(o: Oracles, ip: Word, img: Image, sh: Shdr, strOff: nat, loadOffset: Word,
                     off: nat, ghost k: nat, buf: array<byte>, minDist: Word, ret0: int, ghost w0: Option<Cand>)
    returns (ret: int, newMinDist: Word, ghost winner: Option<Cand>)
    requires buf.Length > 0 && sh.entsize > 0 && InTable(sh, k) && SymtabReadable(o, img, sh, strOff) && off == SymOffset(sh, k)
    modifies buf
    ensures var slot := SlotCand(o, img, sh, strOff, loadOffset, k);
      Best(newMinDist, ret, winner) ==
        if slot.Some? then Step(Best(minDist, ret0, w0), slot.value, ip, buf.Length) else Best(minDist, ret0, w0)
    ensures newMinDist == minDist ==> buf[..] == old(buf[..])
    ensures newMinDist < minDist ==> winner.Some? && buf[..] == Truncated(winner.value.name, buf.Length)
  {
    SlotReadable(o, img, sh, strOff, k);
    ghost var slot := SlotCand(o, img, sh, strOff, loadOffset, k);
    ret, newMinDist, winner := ret0, minDist, w0;
    var sym := ReadSym(img, off);
    if IsDefinedFunc(sym) {
      var addr := o.funcAddr(sym.value);
      if addr.Some? {
        var val := addr.value;
        if sym.shndx != SHN_ABS {
          val := AddW(val, loadOffset);
        }
        var name := CString(img, strOff + sym.name);
        assert slot == Some(Cand(val, sym.size, name));
        var d := SubW(ip, val);
        if d < newMinDist && d < sym.size {
          newMinDist := d;
          CopyName(buf, name);
          ret := if |name| >= buf.Length then -UNW_ENOMEM else 0;
          winner := Some(Cand(val, sym.size, name));
        }
      }
    }
  }

  /** The inner loop of lookup_symbol over one symbol table: from the state
      (minDist, ret0, and the ghost winner w0 whose name buf holds) to the
      state after all of the table's candidates. A table with a zero stride
      is skipped, where the source loops forever (ZeroStrideNeverAdvances). */
  method ScanSymtab(o: Oracles, ip: Word, img: Image, sh: Shdr, strOff: nat, loadOffset: Word,
                    buf: array<byte>, minDist: Word, ret0: int, ghost w0: Option<Cand>)
    returns (ret: int, newMinDist: Word)
    requires buf.Length > 0 && SymtabReadable(o, img, sh, strOff)
    modifies buf
    ensures var r := Fold(Best(minDist, ret0, w0), SymCands(o, img, sh, strOff, loadOffset, 0), ip, buf.Length);
      ret == r.ret && newMinDist == r.minDist &&
      (r.minDist == minDist ==> buf[..] == old(buf[..])) &&
      (r.minDist < minDist ==> r.winner.Some? && buf[..] == Truncated(r.winner.value.name, buf.Length))
    ensures sh.entsize == 0 ==> ret == ret0 && newMinDist == minDist
  {
    ghost var start := Best(minDist, ret0, w0);
    ghost var final := Fold(start, SymCands(o, img, sh, strOff, loadOffset, 0), ip, buf.Length);
    ghost var winner := w0;
    ret, newMinDist := ret0, minDist;
    if sh.entsize == 0 {
      return;
    }
    var off := sh.offset;
    ghost var k := 0;
    while off < sh.offset + sh.size
      invariant off == SymOffset(sh, k)
      invariant Fold(Best(newMinDist, ret, winner), SymCands(o, img, sh, strOff, loadOffset, k), ip, buf.Length) == final
      invariant newMinDist <= minDist
      invariant newMinDist == minDist ==> Best(newMinDist, ret, winner) == start && buf[..] == old(buf[..])
      invariant newMinDist < minDist ==> winner.Some? && buf[..] == Truncated(winner.value.name, buf.Length)
      decreases sh.offset + sh.size - off
    {
      assert InTable(sh, k);
      FoldSymCandsStep(o, img, sh, strOff, loadOffset, k, Best(newMinDist, ret, winner), ip, buf.Length);
      ret, newMinDist, winner := WeighSymbol(o, ip, img, sh, strOff, loadOffset, off, k, buf, newMinDist, ret, winner);
      off := off + sh.entsize;
      k := k + 1;
    }
    FoldSettles(start, SymCands(o, img, sh, strOff, loadOffset, 0), ip, buf.Length);
  }

  /** lookup_symbol: scans every symbol table of img, keeping in *min_dist
      the distance of the best candidate so far and its name in buf. */
  method LookupSymbol(o: Oracles, ip: Word, img: Image, loadOffset: Word, buf: array<byte>, minDist: Word)
    returns (ret: int, newMinDist: Word)
    requires buf.Length > 0 && LookupReadable(o, img)
    modifies buf
    ensures var r := Fold(Best(minDist, -UNW_ENOINFO, None), Cands(o, img, loadOffset), ip, buf.Length);
      ret == r.ret && newMinDist == r.minDist && buf[..] == BufferAfter(r, old(buf[..]), buf.Length)
  {
    ret := -UNW_ENOINFO;
    newMinDist := minDist;
    if !o.validObject(img) {
      return;
    }
    var table := SectionTable(img);
    if table.None? {
      return;
    }
    ret, newMinDist := ScanSections(o, ip, img, loadOffset, buf, minDist);
  }

  /** The outer loop of lookup_symbol, over every section header of an image
      whose section table has been validated. */
  method ScanSections(o: Oracles, ip: Word, img: Image, loadOffset: Word, buf: array<byte>, minDist: Word)
    returns (ret: int, newMinDist: Word)
    requires buf.Length > 0 && |img| >= EHDR_SIZE
    requires forall i :: 0 <= i < ReadEhdr(img).shnum ==> SectionReadable(o, img, i)
    modifies buf
    ensures var r := Fold(Best(minDist, -UNW_ENOINFO, None), CandsFrom(o, img, loadOffset, 0), ip, buf.Length);
      ret == r.ret && newMinDist == r.minDist && buf[..] == BufferAfter(r, old(buf[..]), buf.Length)
  {
    ret := -UNW_ENOINFO;
    newMinDist := minDist;
    ghost var final := Fold(Best(minDist, -UNW_ENOINFO, None), CandsFrom(o, img, loadOffset, 0), ip, buf.Length);
    ghost var winner: Option<Cand> := None;
    var e := ReadEhdr(img);
    var i := 0;
    while i < e.shnum
      invariant 0 <= i <= e.shnum
      invariant Fold(Best(newMinDist, ret, winner), CandsFrom(o, img, loadOffset, i), ip, buf.Length) == final
      invariant buf[..] == BufferAfter(Best(newMinDist, ret, winner), old(buf[..]), buf.Length)
    {
      ret, newMinDist, winner := ScanSectionFrom(o, ip, img, loadOffset, e, i, buf, newMinDist, ret, winner, old(buf[..]), final);
      i := i + 1;
    }
    assert CandsFrom(o, img, loadOffset, i) == [];
  }

  /** One round of the outer loop, stated against the fold over the
      candidates of sections i onwards. */
  method ScanSectionFrom(o: Oracles, ip: Word, img: Image, loadOffset: Word, e: Ehdr, i: nat,
                         buf: array<byte>, minDist: Word, ret0: int, ghost w0: Option<Cand>,
                         ghost initial: seq<byte>, ghost final: Best)
    returns (ret: int, newMinDist: Word, ghost winner: Option<Cand>)
    requires buf.Length > 0 && |img| >= EHDR_SIZE && e == ReadEhdr(img) && i < e.shnum
    requires forall j :: i <= j < e.shnum ==> SectionReadable(o, img, j)
    requires Fold(Best(minDist, ret0, w0), CandsFrom(o, img, loadOffset, i), ip, buf.Length) == final
    requires buf[..] == BufferAfter(Best(minDist, ret0, w0), initial, buf.Length)
    modifies buf
    ensures Fold(Best(newMinDist, ret, winner), CandsFrom(o, img, loadOffset, i + 1), ip, buf.Length) == final
    ensures buf[..] == BufferAfter(Best(newMinDist, ret, winner), initial, buf.Length)
  {
    ghost var rest := CandsFrom(o, img, loadOffset, i + 1);
    assert CandsFrom(o, img, loadOffset, i) == SectionCands(o, img, loadOffset, i) + rest;
    FoldConcat(Best(minDist, ret0, w0), SectionCands(o, img, loadOffset, i), rest, ip, buf.Length);
    ret, newMinDist, winner := ScanSection(o, ip, img, loadOffset, e, i, buf, minDist, ret0, w0, initial);
  }

  /** One round of lookup_symbol's outer loop: section header i, scanned
      when it is a symbol table whose linked string table validates. */
  method ScanSection(o: Oracles, ip: Word, img: Image, loadOffset: Word, e: Ehdr, i: nat,
                     buf: array<byte>, minDist: Word, ret0: int, ghost w0: Option<Cand>, ghost initial: seq<byte>)
    returns (ret: int, newMinDist: Word, ghost winner: Option<Cand>)
    requires buf.Length > 0 && |img| >= EHDR_SIZE && e == ReadEhdr(img) && SectionReadable(o, img, i)
    requires buf[..] == BufferAfter(Best(minDist, ret0, w0), initial, buf.Length)
    modifies buf
    ensures Best(newMinDist, ret, winner) ==
      Fold(Best(minDist, ret0, w0), SectionCands(o, img, loadOffset, i), ip, buf.Length)
    ensures buf[..] == BufferAfter(Best(newMinDist, ret, winner), initial, buf.Length)
  {
    ghost var before := Best(minDist, ret0, w0);
    ghost var sc := SectionCands(o, img, loadOffset, i);
    FoldSettles(before, sc, ip, buf.Length);
    ret, newMinDist, winner := ret0, minDist, w0;
    var sh := ReadShdr(img, ShdrOffset(e, i));
    if IsSymtab(sh) {
      var strtab := StringTable(img, sh.link);
      if strtab.Some? {
        ret, newMinDist := ScanSymtab(o, ip, img, sh, strtab.value, loadOffset, buf, minDist, ret0, w0);
        winner := Fold(before, sc, ip, buf.Length).winner;
      }
    }
  }

  // ---------------------------------------------------------------------
  // get_proc_name_in_image

  /** What get_proc_name_in_image needs of the image and of its
      MiniDebugInfo image beyond what the source checks. */
  ghost predicate ProcNameReadable(o: Oracles, img: Image, mapoff: Word)
  {
    |img| >= EHDR_SIZE && LookupReadable(o, img) && PhdrsReadableFrom(img, mapoff, 0) &&
    FindReadable(o, img, GNU_DEBUGDATA) &&
    (ExtractMiniDebugInfo(o, img).Some? ==> LookupReadable(o, ExtractMiniDebugInfo(o, img).value))
  }

  /** The MiniDebugInfo candidates, relocated by the primary image's load offset. */
  function MdiCands(o: Oracles, img: Image, loadOffset: Word): seq<Cand>
    requires FindReadable(o, img, GNU_DEBUGDATA)
    requires ExtractMiniDebugInfo(o, img).Some? ==> LookupReadable(o, ExtractMiniDebugInfo(o, img).value)
  {
    match ExtractMiniDebugInfo(o, img)
    case None => []
    case Some(m) => Cands(o, m, loadOffset)
  }

  /** The state after scanning the image's candidates and then the
      MiniDebugInfo candidates from the "infinite" distance. */
  function ProcNameScan(o: Oracles, img: Image, segbase: Word, mapoff: Word, ip: Word, bufLen: nat): Best
    requires ProcNameReadable(o, img, mapoff)
  {
    var lo := GetLoadOffset(img, segbase, mapoff);
    Fold(Best(ALL_ONES, -UNW_ENOINFO, None), Cands(o, img, lo) + MdiCands(o, img, lo), ip, bufLen)
  }

  /** get_proc_name_in_image: the closest enclosing symbol of the image or
      its MiniDebugInfo image; ret is -UNW_ENOINFO and *offp is left alone
      when the final distance is not below the image size, otherwise ret is
      the last acceptance's result and *offp the distance. */
  method GetProcNameInImage(o: Oracles, img: Image, segbase: Word, mapoff: Word, ip: Word, buf: array<byte>)
    returns (ret: int, off: Option<Word>)
    requires buf.Length > 0 && ProcNameReadable(o, img, mapoff)
    modifies buf
    ensures var r := ProcNameScan(o, img, segbase, mapoff, ip, buf.Length);
      ret == (if r.minDist >= |img| then -UNW_ENOINFO else r.ret) &&
      off == (if r.minDist >= |img| then None else Some(r.minDist)) &&
      buf[..] == BufferAfter(r, old(buf[..]), buf.Length)
  {
    var loadOffset := GetLoadOffset(img, segbase, mapoff);
    var minDist: Word := ALL_ONES;
    ghost var init := Best(ALL_ONES, -UNW_ENOINFO, None);
    ghost var xs := Cands(o, img, loadOffset);
    ghost var ys := MdiCands(o, img, loadOffset);
    ghost var r1 := Fold(init, xs, ip, buf.Length);
    ghost var r := Fold(r1, ys, ip, buf.Length);
    FoldConcat(init, xs, ys, ip, buf.Length);
    ret, minDist := LookupSymbol(o, ip, img, loadOffset, buf, minDist);
    ghost var bufMid := buf[..];
    var mdi := ExtractMiniDebugInfo(o, img);
    if mdi.Some? {
      assert ys == Cands(o, mdi.value, loadOffset);
      ghost var start2 := Best(r1.minDist, -UNW_ENOINFO, None);
      ghost var r2 := Fold(start2, ys, ip, buf.Length);
      var retMdi;
      retMdi, minDist := LookupSymbol(o, ip, mdi.value, loadOffset, buf, minDist);
      FoldSameTrajectory(r1.minDist, r1.ret, r1.winner, -UNW_ENOINFO, None, ys, ip, buf.Length);
      FoldSettles(start2, ys, ip, buf.Length);
      FoldSettles(r1, ys, ip, buf.Length);
      if r2.minDist < r1.minDist {
        assert r == r2;
      } else {
        assert r == r1 && r2 == start2;
      }
      if retMdi == 0 || retMdi == -UNW_ENOMEM {
        ret := retMdi;
      }
    } else {
      assert ys == [];
    }
    assert minDist == r.minDist && ret == r.ret && buf[..] == BufferAfter(r, old(buf[..]), buf.Length);
    if minDist >= |img| {
      return -UNW_ENOINFO, None;
    }
    off := Some(minDist);
  }

  /** The result is -UNW_ENOINFO exactly when no enclosing symbol lies
      closer than the image size; otherwise the distance reported belongs to
      the nearest enclosing candidate of either table, the image's own
      candidates winning ties (a MiniDebugInfo symbol wins only when strictly
      closer). */
  lemma ProcNameResult(o: Oracles, img: Image, segbase: Word, mapoff: Word, ip: Word, bufLen: nat)
    requires bufLen > 0 && |img| < WORD && ProcNameReadable(o, img, mapoff)
    ensures var lo := GetLoadOffset(img, segbase, mapoff);
      var cs := Cands(o, img, lo) + MdiCands(o, img, lo);
      var r := ProcNameScan(o, img, segbase, mapoff, ip, bufLen);
      var ret := if r.minDist >= |img| then -UNW_ENOINFO else r.ret;
      (ret == -UNW_ENOINFO <==> r.minDist >= |img|) &&
      (r.minDist < |img| ==>
         (ret == 0 || ret == -UNW_ENOMEM) &&
         exists w: nat :: FirstNearest(cs, w, ip, ALL_ONES) && r.winner == Some(cs[w]) &&
                     r.minDist == Dist(ip, cs[w].addr))
  {
    var lo := GetLoadOffset(img, segbase, mapoff);
    var cs := Cands(o, img, lo) + MdiCands(o, img, lo);
    var init := Best(ALL_ONES, -UNW_ENOINFO, None);
    var r := Fold(init, cs, ip, bufLen);
    FoldSettles(init, cs, ip, bufLen);
    if r.minDist < |img| {
      NearestExists(cs, ip, ALL_ONES);
      if forall j :: 0 <= j < |cs| && Encloses(ip, cs[j]) ==> Dist(ip, cs[j].addr) >= ALL_ONES {
        FoldNoCloser(init, cs, ip, bufLen);
        assert false;
      }
      var w: nat :| FirstNearest(cs, w, ip, ALL_ONES);
      FoldPicksFirstNearest(init, cs, w, ip, bufLen);
    }
  }

  /** Two function symbols [0x1000, 0x1010) and [0x1020, 0x1030): address
      0x1015 lies in neither, and the scan reports nothing rather than the
      nearer symbol below it. */
  lemma BetweenSymbolsNotFound(bufLen: nat)
    ensures var cs := [Cand(0x1000, 0x10, [0x66]), Cand(0x1020, 0x10, [0x67])];
      Fold(Best(ALL_ONES, -UNW_ENOINFO, None), cs, 0x1015, bufLen) == Best(ALL_ONES, -UNW_ENOINFO, None)
  {
    var cs := [Cand(0x1000, 0x10, [0x66]), Cand(0x1020, 0x10, [0x67])];
    assert !Encloses(0x1015, cs[0]) && !Encloses(0x1015, cs[1]);
    FoldNoCloser(Best(ALL_ONES, -UNW_ENOINFO, None), cs, 0x1015, bufLen);
  }
}
