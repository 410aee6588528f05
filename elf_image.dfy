/** The ELF image accessor of src/elfxx.c: an ELF64 object held as bytes,
    its header records decoded little-endian as the System V ABI lays them
    out, and the bounds-checked lookups of the section header table, string
    tables, a section by name, the load offset and the embedded
    MiniDebugInfo image. */
module ElfImage {
  import opened Prelude

  /** An unsigned char. */
  newtype byte = x: int | 0 <= x < 0x100

  /** The bytes of a mapped or decompressed object; |img| is ei->size. */
  type Image = seq<byte>

  // Record sizes of ELF64 (ELF header, section header, symbol, program header).
  const EHDR_SIZE: nat := 64
  const SHDR_SIZE: nat := 64
  const SYM_SIZE: nat := 24
  const PHDR_SIZE: nat := 56

  const SHT_SYMTAB: nat := 2
  const SHT_DYNSYM: nat := 11
  const STT_FUNC: nat := 2
  const SHN_UNDEF: nat := 0
  const SHN_ABS: nat := 0xfff1
  const PT_LOAD: nat := 1

  /** The collaborators defined outside this core: valid_object (the ELF
      identification check), tdep_get_func_addr (which may fail) and the
      LZMA decompressor behind xz_decompress (which may fail). */
  datatype Oracles = Oracles(
    validObject: Image -> bool,
    funcAddr: Word -> Option<Word>,
    decompress: Image -> Option<Image>)

  // ---------------------------------------------------------------------
  // Little-endian field decoding

  function U8(img: Image, off: nat): (r: nat)
    requires off < |img|
    ensures r < 0x100
  {
    img[off] as nat
  }

  function U16(img: Image, off: nat): (r: nat)
    requires off + 2 <= |img|
    ensures r < 0x1_0000
  {
    U8(img, off) + 0x100 * U8(img, off + 1)
  }

  function U32(img: Image, off: nat): (r: nat)
    requires off + 4 <= |img|
    ensures r < 0x1_0000_0000
  {
    U16(img, off) + 0x1_0000 * U16(img, off + 2)
  }

  function U64(img: Image, off: nat): Word
    requires off + 8 <= |img|
  {
    U32(img, off) + 0x1_0000_0000 * U32(img, off + 4)
  }

  /** The fields of Elf64_Ehdr the core reads. */
  datatype Ehdr = Ehdr(phoff: Word, shoff: Word, phnum: nat, shentsize: nat, shnum: nat, shstrndx: nat)

  function ReadEhdr(img: Image): Ehdr
    requires |img| >= EHDR_SIZE
  {
    Ehdr(U64(img, 32), U64(img, 40), U16(img, 56), U16(img, 58), U16(img, 60), U16(img, 62))
  }

  /** The fields of Elf64_Shdr the core reads. */
  datatype Shdr = Shdr(name: nat, shType: nat, offset: Word, size: Word, link: nat, entsize: Word)

  function ReadShdr(img: Image, off: nat): Shdr
    requires off + SHDR_SIZE <= |img|
  {
    Shdr(U32(img, off), U32(img, off + 4), U64(img, off + 24), U64(img, off + 32),
         U32(img, off + 40), U64(img, off + 56))
  }

  /** The fields of Elf64_Sym the core reads. */
  datatype Sym = Sym(name: nat, info: nat, shndx: nat, value: Word, size: Word)

  function ReadSym(img: Image, off: nat): Sym
    requires off + SYM_SIZE <= |img|
  {
    Sym(U32(img, off), U8(img, off + 4), U16(img, off + 6), U64(img, off + 8), U64(img, off + 16))
  }

  /** The fields of Elf64_Phdr the core reads. */
  datatype Phdr = Phdr(pType: nat, offset: Word, vaddr: Word)

  function ReadPhdr(img: Image, off: nat): Phdr
    requires off + PHDR_SIZE <= |img|
  {
    Phdr(U32(img, off), U64(img, off + 8), U64(img, off + 16))
  }

  // ---------------------------------------------------------------------
  // NUL-terminated strings inside the image

  /** A NUL byte follows offset off before the image ends. */
  predicate Terminated(img: Image, off: nat)
    decreases |img| - off
  {
    off < |img| && (img[off] == 0 || Terminated(img, off + 1))
  }

  /** The C string at offset off, without its terminating NUL. */
  function CString(img: Image, off: nat): (s: seq<byte>)
    requires Terminated(img, off)
    ensures off + |s| < |img| && img[off + |s|] == 0
    ensures forall j :: 0 <= j < |s| ==> s[j] == img[off + j] && s[j] != 0
    decreases |img| - off
  {
    if img[off] == 0 then [] else [img[off]] + CString(img, off + 1)
  }

  // ---------------------------------------------------------------------
  // section_table

  /** Byte offset of section header i (the table is strided by e_shentsize). */
  function ShdrOffset(e: Ehdr, i: nat): nat
  {
    e.shoff + i * e.shentsize
  }

  /** The check of section_table on decoded header fields: the table starts
      at e_shoff unless e_shoff + e_shnum * e_shentsize exceeds the size. */
  function SectionTableOf(e: Ehdr, size: nat): (r: Option<nat>)
    ensures r.Some? ==> r.value == e.shoff && r.value <= size
  {
    if e.shoff + e.shnum * e.shentsize > size then None else Some(e.shoff)
  }

  /** section_table's test as the C code evaluates it: e_shoff + e_shnum *
      e_shentsize is an Elf64_Off sum, so it is taken modulo 2^64. */
  function SectionTableAsWritten(e: Ehdr, size: nat): (r: Option<nat>)
    ensures r.Some? ==> r.value == e.shoff
    ensures size < WORD && SectionTableOf(e, size).Some? ==> r == SectionTableOf(e, size)
  {
    if Wrap(e.shoff + e.shnum * e.shentsize) > size then None else Some(e.shoff)
  }

  /** An e_shoff just below 2^64 wraps the sum to 0, so the test accepts a
      table that lies far outside a 64-byte image; SectionTableOf rejects it. */
  lemma SectionTableWraps()
    ensures var e := Ehdr(0, WORD - 64, 0, 64, 1, 0);
      SectionTableAsWritten(e, 64) == Some(WORD - 64) && SectionTableOf(e, 64) == None
  {
  }

  /** section_table on the image's own header: e_shoff, inside the image. */
  function SectionTable(img: Image): (r: Option<nat>)
    requires |img| >= EHDR_SIZE
    ensures r.Some? ==> r.value == ReadEhdr(img).shoff && r.value <= |img|
  {
    SectionTableOf(ReadEhdr(img), |img|)
  }

  lemma {:induction false} MulMono(a: nat, b: nat, w: nat)
    requires a <= b
    ensures a * w <= b * w
    decreases b - a
  {
    if a < b {
      MulMono(a, b - 1, w);
      assert (b - 1) * w + w == b * w;
    }
  }

  /** section_table succeeds exactly when the table start and every one of
      the e_shnum header slots lie inside the image, and then yields e_shoff. */
  lemma {:induction false} SectionTableBounds(e: Ehdr, size: nat)
    ensures SectionTableOf(e, size).Some? <==>
      e.shoff <= size && forall i :: 0 <= i < e.shnum ==> ShdrOffset(e, i) + e.shentsize <= size
    ensures SectionTableOf(e, size).Some? ==> SectionTableOf(e, size).value == e.shoff
  {
    MulMono(0, e.shnum, e.shentsize);
    if SectionTableOf(e, size).Some? {
      forall i | 0 <= i < e.shnum
        ensures ShdrOffset(e, i) + e.shentsize <= size
      {
        MulMono(i + 1, e.shnum, e.shentsize);
        assert (i + 1) * e.shentsize == i * e.shentsize + e.shentsize;
      }
    } else if e.shoff <= size && e.shnum > 0 {
      var last := e.shnum - 1;
      assert last * e.shentsize + e.shentsize == e.shnum * e.shentsize;
      assert ShdrOffset(e, last) + e.shentsize > size;
    }
  }

  /** Header i can be decoded: all SHDR_SIZE bytes of its slot are inside. */
  predicate ShdrReadable(img: Image, e: Ehdr, i: nat)
  {
    ShdrOffset(e, i) + SHDR_SIZE <= |img|
  }

  function ShdrAt(img: Image, i: nat): Shdr
    requires |img| >= EHDR_SIZE && ShdrReadable(img, ReadEhdr(img), i)
  {
    ReadShdr(img, ShdrOffset(ReadEhdr(img), i))
  }

  /** With the standard e_shentsize (at least sizeof (Elf64_Shdr)), the
      section_table check is enough for every header read the scans make. */
  lemma StandardShentsizeReadable(img: Image)
    requires |img| >= EHDR_SIZE && ReadEhdr(img).shentsize >= SHDR_SIZE
    requires SectionTable(img).Some?
    ensures forall i :: 0 <= i < ReadEhdr(img).shnum ==> ShdrReadable(img, ReadEhdr(img), i)
  {
    SectionTableBounds(ReadEhdr(img), |img|);
  }

  // ---------------------------------------------------------------------
  // string_table

  /** C's conversion of a 32-bit unsigned value (sh_link) to the int
      parameter of string_table: values from 2^31 up become negative. */
  function Int32(x: nat): (r: int)
    ensures -0x8000_0000 <= r < 0x8000_0000
    ensures (r - x) % 0x1_0000_0000 == 0
  {
    var w := x % 0x1_0000_0000;
    if w < 0x8000_0000 then w else w - 0x1_0000_0000
  }

  /** The header slot string_table reads: soff + section * e_shentsize with
      section an int, stored in an Elf64_Off. */
  function StrShdrOffset(e: Ehdr, section: nat): Word
  {
    Wrap(e.shoff + Int32(section) * e.shentsize)
  }

  /** For a section index below 2^31 whose slot offset does not pass 2^64,
      string_table reads the same slot as the section header table walk. */
  lemma StrShdrOffsetAgrees(e: Ehdr, section: nat)
    requires section < 0x8000_0000 && ShdrOffset(e, section) < WORD
    ensures StrShdrOffset(e, section) == ShdrOffset(e, section)
  {
  }

  /** An sh_link of 0xffffffff is the int -1, so string_table reads the
      e_shentsize bytes just before the section header table. */
  lemma StringTableLinkMinusOne(e: Ehdr)
    requires e.shoff >= e.shentsize
    ensures StrShdrOffset(e, 0xffff_ffff) == e.shoff - e.shentsize
  {
    assert Int32(0xffff_ffff) == -1;
  }

  /** End of sh_size within Elf64_Shdr: string_table reads sh_offset
      (bytes 24-31) and sh_size (bytes 32-39) and nothing after them. */
  const SHDR_EXTENT_END: nat := 40

  /** sh_offset and sh_size of the section header at off. */
  function ReadShdrExtent(img: Image, off: nat): Section
    requires off + SHDR_EXTENT_END <= |img|
  {
    Section(U64(img, off + 24), U64(img, off + 32))
  }

  /** The header read of string_table stays inside the image whenever its
      slot check passes (the source checks e_shentsize bytes and reads
      sh_offset and sh_size, which end 40 bytes into the header). */
  predicate StrShdrReadable(img: Image, section: nat)
    requires |img| >= EHDR_SIZE
  {
    var e := ReadEhdr(img);
    StrShdrOffset(e, section) + e.shentsize <= |img| ==> StrShdrOffset(e, section) + SHDR_EXTENT_END <= |img|
  }

  /** The sh_offset and sh_size string_table reads for `section`. */
  function StrShdrAt(img: Image, section: nat): Section
    requires |img| >= EHDR_SIZE && StrShdrOffset(ReadEhdr(img), section) + SHDR_EXTENT_END <= |img|
  {
    ReadShdrExtent(img, StrShdrOffset(ReadEhdr(img), section))
  }

  /** string_table: the offset of the string table held by section
      `section`, or None when the header slot or the table lies outside. */
  function StringTable(img: Image, section: nat): (r: Option<nat>)
    requires |img| >= EHDR_SIZE && StrShdrReadable(img, section)
    ensures r.Some? ==>
      StrShdrOffset(ReadEhdr(img), section) + ReadEhdr(img).shentsize <= |img| &&
      r.value == StrShdrAt(img, section).offset &&
      r.value + StrShdrAt(img, section).size <= |img|
    ensures r.None? ==>
      StrShdrOffset(ReadEhdr(img), section) + ReadEhdr(img).shentsize > |img| ||
      StrShdrAt(img, section).offset + StrShdrAt(img, section).size > |img|
  {
    var e := ReadEhdr(img);
    var slot := StrShdrOffset(e, section);
    if slot + e.shentsize > |img| then None
    else
      var sh := ReadShdrExtent(img, slot);
      if sh.offset + sh.size > |img| then None else Some(sh.offset)
  }

  // ---------------------------------------------------------------------
  // get_load_offset

  /** Byte offset of program header i (phdr[i], strided by sizeof (Elf64_Phdr)). */
  function PhdrOffset(e: Ehdr, i: nat): nat
  {
    e.phoff + i * PHDR_SIZE
  }

  /** Program header i is a PT_LOAD header whose p_offset is mapoff. */
  predicate LoadsAt(img: Image, i: nat, mapoff: Word)
    requires |img| >= EHDR_SIZE
  {
    var off := PhdrOffset(ReadEhdr(img), i);
    off + PHDR_SIZE <= |img| &&
    ReadPhdr(img, off).pType == PT_LOAD && ReadPhdr(img, off).offset == mapoff
  }

  /** Every program header get_load_offset reads from index i on (up to and
      including the first match) lies inside the image; the source does not
      check this. */
  predicate PhdrsReadableFrom(img: Image, mapoff: Word, i: nat)
    requires |img| >= EHDR_SIZE
    decreases ReadEhdr(img).phnum - i
  {
    i >= ReadEhdr(img).phnum ||
    (PhdrOffset(ReadEhdr(img), i) + PHDR_SIZE <= |img| &&
     (LoadsAt(img, i, mapoff) || PhdrsReadableFrom(img, mapoff, i + 1)))
  }

  function LoadOffsetFrom(img: Image, segbase: Word, mapoff: Word, i: nat): (r: Word)
    requires |img| >= EHDR_SIZE && PhdrsReadableFrom(img, mapoff, i)
    ensures r != 0 ==>
      exists k :: i <= k < ReadEhdr(img).phnum && LoadsAt(img, k, mapoff) &&
                  r == SubW(segbase, ReadPhdr(img, PhdrOffset(ReadEhdr(img), k)).vaddr)
    decreases ReadEhdr(img).phnum - i
  {
    if i >= ReadEhdr(img).phnum then 0
    else if LoadsAt(img, i, mapoff) then SubW(segbase, ReadPhdr(img, PhdrOffset(ReadEhdr(img), i)).vaddr)
    else LoadOffsetFrom(img, segbase, mapoff, i + 1)
  }

  /** get_load_offset: segbase - p_vaddr of the first PT_LOAD header whose
      p_offset is mapoff, or 0. */
  function GetLoadOffset(img: Image, segbase: Word, mapoff: Word): (r: Word)
    requires |img| >= EHDR_SIZE && PhdrsReadableFrom(img, mapoff, 0)
    ensures r != 0 ==>
      exists k :: 0 <= k < ReadEhdr(img).phnum && LoadsAt(img, k, mapoff) &&
                  r == SubW(segbase, ReadPhdr(img, PhdrOffset(ReadEhdr(img), k)).vaddr)
  {
    LoadOffsetFrom(img, segbase, mapoff, 0)
  }

  /** With no PT_LOAD header for mapoff from index i on, the load offset is 0. */
  lemma {:induction false} LoadOffsetNoMatch(img: Image, segbase: Word, mapoff: Word, i: nat)
    requires |img| >= EHDR_SIZE && PhdrsReadableFrom(img, mapoff, i)
    requires forall k :: i <= k < ReadEhdr(img).phnum ==> !LoadsAt(img, k, mapoff)
    ensures LoadOffsetFrom(img, segbase, mapoff, i) == 0
    decreases ReadEhdr(img).phnum - i
  {
    if i < ReadEhdr(img).phnum {
      LoadOffsetNoMatch(img, segbase, mapoff, i + 1);
    }
  }

  /** The load offset is segbase - p_vaddr of the first matching PT_LOAD header. */
  lemma {:induction false} LoadOffsetFirstMatch(img: Image, segbase: Word, mapoff: Word, i: nat, k: nat)
    requires |img| >= EHDR_SIZE && PhdrsReadableFrom(img, mapoff, i)
    requires i <= k < ReadEhdr(img).phnum && LoadsAt(img, k, mapoff)
    requires forall j :: i <= j < k ==> !LoadsAt(img, j, mapoff)
    ensures LoadOffsetFrom(img, segbase, mapoff, i) == SubW(segbase, ReadPhdr(img, PhdrOffset(ReadEhdr(img), k)).vaddr)
    decreases k - i
  {
    if i < k {
      LoadOffsetFirstMatch(img, segbase, mapoff, i + 1, k);
    }
  }

  // ---------------------------------------------------------------------
  // find_section

  /** A located section: its bytes are img[offset .. offset + size]. */
  datatype Section = Section(offset: nat, size: nat)

  /** Section header k can be read and its name, read from the section name
      string table at strOff, equals name. */
  predicate NameMatches(img: Image, strOff: nat, name: seq<byte>, k: nat)
    requires |img| >= EHDR_SIZE
  {
    ShdrReadable(img, ReadEhdr(img), k) &&
    Terminated(img, strOff + ShdrAt(img, k).name) &&
    CString(img, strOff + ShdrAt(img, k).name) == name
  }

  /** Every header and name find_section reads from index i on (up to and
      including the first match) lies inside the image and every name is
      NUL-terminated; the source checks neither. */
  predicate NamesReadableFrom(img: Image, strOff: nat, name: seq<byte>, i: nat)
    requires |img| >= EHDR_SIZE
    decreases ReadEhdr(img).shnum - i
  {
    i >= ReadEhdr(img).shnum ||
    (ShdrReadable(img, ReadEhdr(img), i) && Terminated(img, strOff + ShdrAt(img, i).name) &&
     (NameMatches(img, strOff, name, i) || NamesReadableFrom(img, strOff, name, i + 1)))
  }

  function FindFrom(img: Image, strOff: nat, name: seq<byte>, i: nat): (r: Option<Section>)
    requires |img| >= EHDR_SIZE && NamesReadableFrom(img, strOff, name, i)
    ensures r.Some? ==> r.value.offset + r.value.size <= |img|
    decreases ReadEhdr(img).shnum - i
  {
    if i >= ReadEhdr(img).shnum then None
    else if NameMatches(img, strOff, name, i) then
      var sh := ShdrAt(img, i);
      if sh.offset + sh.size > |img| then None else Some(Section(sh.offset, sh.size))
    else FindFrom(img, strOff, name, i + 1)
  }

  /** What find_section needs of an image valid_object accepts, beyond what
      it checks: a whole ELF header, and the headers and names it reads. */
  predicate FindReadable(o: Oracles, img: Image, name: seq<byte>)
  {
    o.validObject(img) ==>
      |img| >= EHDR_SIZE &&
      (SectionTable(img).Some? ==>
        StrShdrReadable(img, ReadEhdr(img).shstrndx) &&
        (StringTable(img, ReadEhdr(img).shstrndx).Some? ==>
          NamesReadableFrom(img, StringTable(img, ReadEhdr(img).shstrndx).value, name, 0)))
  }

  /** A C string: no NUL byte inside. */
  predicate NoNul(name: seq<byte>)
  {
    forall j :: 0 <= j < |name| ==> name[j] != 0
  }

  /** find_section: the first section whose name is `name`, provided its
      bytes lie inside the image. An object valid_object rejects, a section
      table outside the image, or a section-name string table outside it
      finds nothing; otherwise the name search over the headers decides
      (FindFromNoMatch, FindFromFirstMatch). */
  function FindSection(o: Oracles, img: Image, name: seq<byte>): (r: Option<Section>)
    requires FindReadable(o, img, name) && NoNul(name)
    ensures r.Some? ==> r.value.offset + r.value.size <= |img|
    ensures !o.validObject(img) || SectionTable(img).None? ==> r.None?
    ensures o.validObject(img) && SectionTable(img).Some? ==>
      (StringTable(img, ReadEhdr(img).shstrndx).None? ==> r.None?) &&
      (StringTable(img, ReadEhdr(img).shstrndx).Some? ==>
        r == FindFrom(img, StringTable(img, ReadEhdr(img).shstrndx).value, name, 0))
  {
    if !o.validObject(img) || SectionTable(img).None? then None
    else match StringTable(img, ReadEhdr(img).shstrndx)
      case None => None
      case Some(strOff) => FindFrom(img, strOff, name, 0)
  }

  /** With no header from i on named `name`, the search fails. */
  lemma {:induction false} FindFromNoMatch(img: Image, strOff: nat, name: seq<byte>, i: nat)
    requires |img| >= EHDR_SIZE && NamesReadableFrom(img, strOff, name, i)
    requires forall k :: i <= k < ReadEhdr(img).shnum ==> !NameMatches(img, strOff, name, k)
    ensures FindFrom(img, strOff, name, i) == None
    decreases ReadEhdr(img).shnum - i
  {
    if i < ReadEhdr(img).shnum {
      FindFromNoMatch(img, strOff, name, i + 1);
    }
  }

  /** The first header from i on named `name` decides the result: its bytes
      when they lie inside the image, otherwise failure (later headers with
      the same name are not consulted). */
  lemma {:induction false} FindFromFirstMatch(img: Image, strOff: nat, name: seq<byte>, i: nat, k: nat)
    requires |img| >= EHDR_SIZE && NamesReadableFrom(img, strOff, name, i)
    requires i <= k < ReadEhdr(img).shnum && NameMatches(img, strOff, name, k)
    requires forall j :: i <= j < k ==> !NameMatches(img, strOff, name, j)
    ensures FindFrom(img, strOff, name, i) ==
      (if ShdrAt(img, k).offset + ShdrAt(img, k).size > |img| then None
       else Some(Section(ShdrAt(img, k).offset, ShdrAt(img, k).size)))
    decreases k - i
  {
    if i < k {
      assert !NameMatches(img, strOff, name, i);
      assert NamesReadableFrom(img, strOff, name, i + 1);
      assert i + 1 <= k < ReadEhdr(img).shnum;
      assert NameMatches(img, strOff, name, k);
      assert forall j :: i + 1 <= j < k ==> !NameMatches(img, strOff, name, j);
      FindFromFirstMatch(img, strOff, name, i + 1, k);
    } else {
      var sh := ShdrAt(img, k);
      assert FindFrom(img, strOff, name, i) ==
        (if sh.offset + sh.size > |img| then None else Some(Section(sh.offset, sh.size)));
    }
  }

  // ---------------------------------------------------------------------
  // extract_minidebuginfo

  /** ".gnu_debugdata", the section holding the XZ-compressed MiniDebugInfo object. */
  const GNU_DEBUGDATA: seq<byte> :=
    [0x2e, 0x67, 0x6e, 0x75, 0x5f, 0x64, 0x65, 0x62, 0x75, 0x67, 0x64, 0x61, 0x74, 0x61]

  /** extract_minidebuginfo: the decompressed contents of the .gnu_debugdata
      section, a new image independent of img; None when the section is
      missing or lies outside the image, or when decompression fails. */
  function ExtractMiniDebugInfo(o: Oracles, img: Image): (r: Option<Image>)
    requires FindReadable(o, img, GNU_DEBUGDATA)
    ensures FindSection(o, img, GNU_DEBUGDATA).None? ==> r.None?
    ensures FindSection(o, img, GNU_DEBUGDATA).Some? ==>
      var s := FindSection(o, img, GNU_DEBUGDATA).value;
      r == o.decompress(img[s.offset .. s.offset + s.size])
  {
    match FindSection(o, img, GNU_DEBUGDATA)
    case None => None
    case Some(s) => o.decompress(img[s.offset .. s.offset + s.size])
  }
}
