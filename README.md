# libunwind local address-space maps and ELF symbol lookup, in Dafny

This project models two cooperating parts of libunwind's local unwinder.

**ELF symbol lookup** (`elfxx.c`) answers the question "which function contains this
instruction pointer, and how far into it is it?" for a 64-bit little-endian ELF image
held in memory:

- `section_table` and `string_table` validate the section header table and a string
  table against the image size.
- `get_load_offset` finds the `PT_LOAD` segment mapped at the given file offset.
- `find_section` looks a section up by name.
- `extract_minidebuginfo` decompresses the `.gnu_debugdata` section.
- `lookup_symbol` scans every `SHT_SYMTAB`/`SHT_DYNSYM` table. It keeps the nearest
  enclosing `STT_FUNC` symbol and copies that symbol's name, truncated, into the
  caller's buffer.
- `get_proc_name_in_image` runs the scan over the image and then over its
  MiniDebugInfo image.

The image is a sequence of bytes (`ElfImage.Image`). Each header read decodes
little-endian fields at an offset. The scan is specified by a fold (`Symbols.Fold`)
over the list of candidate symbols in table order. The imperative scan methods are
proved to end in exactly the state of that fold. Lemmas then show what the fold
computes:

- the nearest enclosing symbol;
- the first one on ties;
- `-UNW_ENOMEM` exactly when the name was truncated.

**The cached map of the local process** (`Los-common.c`, `mi/Lmaps.c`) is a linked list
of `map_info` nodes, one per mapped region, each optionally caching an ELF image:

- `unw_map_local_create` and `unw_map_local_destroy` reference-count the process-wide
  list.
- `unw_map_local_cursor_get` and `unw_map_local_cursor_valid` let a reader detect
  that the list was replaced.
- `maps_is_readable` and `maps_is_writable` ask whether an address is mapped with a
  protection bit. On a miss they call `rebuild_if_necessary`. That function
  enumerates the process's maps again and, if the new list knows the address, moves
  the cached images over with `move_cached_elf_data`. It then installs the new list
  and retires the old one onto the to-delete chain.

The list nodes are objects (`MapList.MapInfo`) whose `next`, image and `shared` fields
the code updates in place. The globals are a class (`LocalMapCache`). A ghost ledger
records which nodes and images have been released, so the model can prove that none
is released twice.

Two facts about the migration pass are proved:

- **It is sound.** Every image handed over goes to a node with exactly the same range,
  and every image keeps exactly one owner.
- **It is not complete.** The inner loop runs while `old->start <= new->start`, so it
  walks past later new nodes while handling an earlier old node. Two adjacent cached
  regions that both reappear unchanged lose the second cached image
  (`MapList.MigrationMissesSecondMatch`). That image is only re-read later. This
  costs performance, not correctness, so it is recorded as a property rather than a
  defect.

Machine words are `Prelude.Word` (naturals below 2^64). The unsigned subtraction in
`(Elf_W (Addr)) (ip - val)` and `segbase - p_vaddr` wraps explicitly (`Prelude.SubW`),
and so does the addition of the load offset (`Prelude.AddW`).

## Model

| member | source | states |
|---|---|---|
| Prelude.SubW | src/elfxx.c:143-147 | the 64-bit unsigned difference: a - b when b <= a, otherwise a - b + 2^64 |
| Prelude.AddW | src/elfxx.c:137-138 | the 64-bit unsigned sum: a + b, less 2^64 when it overflows |
| ElfImage.CString | src/elfxx.c:148-150 | the C string at an offset is the bytes up to the first NUL, none of which is NUL, and that NUL lies inside the image |
| ElfImage.SectionTableOf | src/elfxx.c:39-54 | a section table accepted by the unbounded test starts at e_shoff and that offset lies inside the image |
| ElfImage.SectionTableAsWritten | src/elfxx.c:44-45 | the test with its 64-bit wrapping sum yields e_shoff when it accepts, and agrees with the unbounded test whenever that one accepts a table of an image smaller than 2^64 bytes |
| ElfImage.SectionTable | src/elfxx.c:39-54 | a section table of the image starts at the header's e_shoff, inside the image |
| ElfImage.SectionTableWraps | src/elfxx.c:44-45 | as written, e_shoff = 2^64 - 64 with one 64-byte header wraps the bound to 0, so a 64-byte image accepts a section table that lies outside it, while the unbounded check rejects it |
| ElfImage.SectionTableBounds | src/elfxx.c:44-53 | section_table (with the sum not wrapping) succeeds exactly when e_shoff and every one of the e_shnum header slots lie inside the image, and then yields e_shoff |
| ElfImage.StandardShentsizeReadable | src/elfxx.c:107-111 | once section_table succeeds and e_shentsize is at least a header's size, every section header the loops at lines 111-160 read lies inside the image |
| ElfImage.Int32 | src/elfxx.c:121 | the u32 sh_link read as the `int section` parameter: a value in [-2^31, 2^31) congruent to it modulo 2^32 |
| ElfImage.StrShdrOffsetAgrees | src/elfxx.c:66 | for a section index below 2^31 whose slot offset stays below 2^64, the slot string_table computes is the ordinary header slot e_shoff + section * e_shentsize |
| ElfImage.StringTableLinkMinusOne | src/elfxx.c:57-66 | sh_link = 0xffffffff reaches string_table as -1, so the slot it checks is the one e_shentsize bytes before the section table |
| ElfImage.StringTable | src/elfxx.c:56-88 | Some(sh_offset) exactly when the header slot of the section, taken at e_shoff + section * e_shentsize with the section as a signed int, and the table it describes both lie inside the image (of the header only sh_offset and sh_size are read); None exactly when either does not |
| ElfImage.LoadOffsetFrom | src/elfxx.c:175-184 | a non-zero result comes from a PT_LOAD header at index i or later whose p_offset is mapoff, and is segbase - p_vaddr modulo 2^64 |
| ElfImage.GetLoadOffset | src/elfxx.c:165-185 | a non-zero load offset comes from a PT_LOAD header whose p_offset is mapoff, and is segbase - p_vaddr modulo 2^64 |
| ElfImage.LoadOffsetNoMatch | src/elfxx.c:165-185 | with no PT_LOAD header at mapoff, get_load_offset returns 0 |
| ElfImage.LoadOffsetFirstMatch | src/elfxx.c:177-182 | the first PT_LOAD header whose p_offset is mapoff decides the result, segbase - p_vaddr modulo 2^64, and later ones are ignored |
| ElfImage.FindFrom | src/elfxx.c:270-287 | a section found by the name loop lies inside the image |
| ElfImage.FindSection | src/elfxx.c:250-288 | a section found by find_section lies inside the image; an object valid_object rejects, a section table outside the image or a section-name string table outside it finds nothing; otherwise the result is the name search over the headers from index 0 |
| ElfImage.FindFromNoMatch | src/elfxx.c:270-287 | with no section of that name the search fails |
| ElfImage.FindFromFirstMatch | src/elfxx.c:272-284 | the first section whose name matches decides: its offset and size if it fits in the image, failure if not, and later sections of the same name are never looked at |
| ElfImage.ExtractMiniDebugInfo | src/elfxx.c:290-301 | no .gnu_debugdata section means no MiniDebugInfo; when the section is found, the result is whatever decompressing exactly that section's bytes yields |
| Symbols.EnclosesIffWithin | src/elfxx.c:143-144 | for a symbol that does not wrap the address space, the wrapped test ip - val < st_size holds exactly when val <= ip < val + st_size |
| Symbols.ZeroStrideNeverAdvances | src/elfxx.c:128-130 | as written, a symbol table with sh_size > 0 and sh_entsize = 0 keeps its cursor on the first slot, which stays inside the table, so the inner loop never ends |
| Symbols.SlotCand | src/elfxx.c:132-150 | a symbol slot is a candidate exactly when it is a defined STT_FUNC the address oracle resolves; its size is st_size and its name is the NUL-free C string at st_name in the string table |
| Symbols.Cands | src/elfxx.c:104-109 | an image valid_object rejects, or whose section table is out of bounds, has no candidates |
| Symbols.Step | src/elfxx.c:143-152 | one candidate lowers the minimum distance exactly when it encloses ip nearer than the minimum, and then ret, distance and buffer are that candidate's; otherwise nothing changes |
| Symbols.Fold | src/elfxx.c:111-161 | the minimum distance of a scan never grows |
| Symbols.FoldSymCandsStep | src/elfxx.c:128-154 | scanning a symbol table from slot k weighs slot k's candidate, if it is a defined function the address oracle resolves, and then scans from slot k + 1 at k's offset plus sh_entsize |
| Symbols.FoldSettles | src/elfxx.c:143-152 | if the scan's minimum distance is unchanged, nothing was accepted; if smaller, it is the distance of an enclosing candidate whose name decided ret |
| Symbols.FoldNoCloser | src/elfxx.c:143-144 | candidates that do not enclose ip, or are no nearer than the running minimum, leave distance, ret and buffer untouched |
| Symbols.FoldPicksFirstNearest | src/elfxx.c:143-152 | the scan ends holding the nearest enclosing candidate, the first one in table order among equals, with that name's truncation result |
| Symbols.NearestExists | src/elfxx.c:143-144 | either no enclosing candidate is nearer than the bound or a first nearest one exists |
| Symbols.FoldConcat | src/elfxx.c:111-161 | scanning tables one after another, sharing min_dist, equals one scan over all their candidates in order |
| Symbols.FoldSameTrajectory | src/elfxx.c:331-338 | a scan's acceptances depend only on the starting minimum, not on the ret and name held, so the MiniDebugInfo scan can start from lookup_symbol's fresh -UNW_ENOINFO |
| Symbols.TruncatedName | src/elfxx.c:148-151 | the buffer holds the first buf_len - 1 bytes of the name (all of it if shorter) and a NUL; ret is -UNW_ENOMEM exactly when the name has at least buf_len bytes |
| Symbols.TruncationExample | src/elfxx.c:148-151 | a 25-byte name in an 8-byte buffer keeps its first 7 bytes and a NUL and reports -UNW_ENOMEM |
| Symbols.CopyName | src/elfxx.c:148-149 | after the copy loop the buffer is exactly the truncated, NUL-terminated name |
| Symbols.WeighSymbol | src/elfxx.c:132-152 | one symbol slot: accepted exactly when it is a defined function enclosing ip nearer than min_dist; then the new distance, ret and buffer are those of that symbol, otherwise nothing changes |
| Symbols.ScanSymtab | src/elfxx.c:128-154 | the inner loop ends in the state of the fold over the table's candidates; a table with sh_entsize = 0 is skipped |
| Symbols.ScanSection | src/elfxx.c:113-160 | one section of the outer loop: a symbol table with a valid string table is scanned, any other section leaves the state alone |
| Symbols.ScanSectionFrom | src/elfxx.c:111-161 | one round of the outer loop turns the fold over the candidates of sections i onwards into the fold over sections i + 1 onwards, with the buffer following the state |
| Symbols.ScanSections | src/elfxx.c:111-161 | the outer loop over every section header ends with ret, *min_dist and the buffer of the fold over all candidates, starting from -UNW_ENOINFO |
| Symbols.LookupSymbol | src/elfxx.c:90-163 | ret, *min_dist and the buffer are those of the fold over all candidates of the image, starting from -UNW_ENOINFO (an invalid object or a bad section table gives no candidates) |
| Symbols.GetProcNameInImage | src/elfxx.c:309-348 | the result of the fold over the image's candidates followed by the MiniDebugInfo image's; -UNW_ENOINFO with *offp untouched when the distance is not below the image size, else ret and the distance |
| Symbols.ProcNameResult | src/elfxx.c:309-348 | -UNW_ENOINFO exactly when nothing encloses ip closer than the image size; otherwise ret is 0 or -UNW_ENOMEM and the distance is that of the first nearest enclosing symbol of either table, the image's own winning ties |
| Symbols.BetweenSymbolsNotFound | src/elfxx.c:143-144 | an address between two functions is reported as not found, not as an offset into the lower one |
| MapList.MapInfo.constructor | src/Los-common.c:96 | a freshly enumerated node: the mapping's range, offset, flags and path, no cached image, not shared |
| MapList.MapsCreateList | src/mi/Lmaps.c:59 | a list of fresh nodes whose contents are the enumerated mappings in order |
| MapList.FirstContaining | src/Los-common.c:131 | the index of the first region holding addr, or none exactly when no region holds it |
| MapList.ContainingIsUnique | src/Los-common.c:45-48 | in an ordered list of disjoint regions the region holding addr is the only one |
| MapList.MapFindFromAddr | src/Los-common.c:97 | the node returned is the first holding addr, or null when none does |
| MapList.Trace | src/Los-common.c:38-73 | the hand-over record of the pass stays a map from new nodes to old-node indices (or none) |
| MapList.Sources | src/Los-common.c:34-74 | the complete hand-over record, one entry per new node |
| MapList.NewAfter | src/Los-common.c:59-60 | the new list after the pass: each node with its source's image and size if it has a source |
| MapList.OldAfter | src/Los-common.c:64 | the old list after the pass: each node marked shared if its image was handed over |
| MapList.TraceSound | src/Los-common.c:49-69 | every hand-over recorded pairs a new node with an old node of identical range that holds an image |
| MapList.MigrationSound | src/Los-common.c:34-74 | a new node either keeps its contents or takes the image and size of an old node with the same range and an image, which is then shared; old nodes change only in shared and only when handed over; old nodes without an image are untouched |
| MapList.MigrationInjective | src/Los-common.c:45-48 | with an ordered new list no old image goes to two new nodes |
| MapList.MigrationMissesSecondMatch | src/Los-common.c:49-71 | with old [0,16) and [16,32) both caching an image and the same two ranges in the new list, only the first image is handed over |
| MapList.HandOver | src/Los-common.c:58-65 | one hand-over sets the new node's image and size and the old node's shared flag, and records it |
| MapList.NewCursorStep | src/Los-common.c:49-71 | one inner-loop step advances the new cursor in step with the reference pass |
| MapList.AdvanceNewCursor | src/Los-common.c:49-71 | the inner loop stops at the first new node starting below the old node, or at the end, in step with the reference pass |
| MapList.OldCursorStep | src/Los-common.c:38-73 | one outer-loop step skips an old node without an image or runs the inner loop for it, in step with the reference pass |
| MapList.Walk | src/Los-common.c:38-73 | the outer loop ends with both lists holding exactly the reference pass's results, in at most one step per node |
| MapList.MoveCachedElfData | src/Los-common.c:34-74 | both lists keep their links, and their contents become OldAfter and NewAfter of the complete hand-over record |
| LocalMaps.MigrationKeepsOwnersUnique | src/Los-common.c:54-69 | after the pass, the new list, the retired list and the chain still own distinct images, and together exactly the images owned before |
| LocalMaps.ProtQueryMeaning | src/Los-common.c:128-160 | the answer is 0 or the bit, and is the bit exactly when the region holding addr in the list asked, or in a fresh enumeration, has it |
| LocalMaps.LastNode | src/Los-common.c:110-112 | the walk ends at the list's last node |
| LocalMaps.Splice | src/Los-common.c:110-116 | linking the chain after the last node gives one list, the current list then the chain, with every node's contents unchanged |
| LocalMaps.RetireOwned | src/Los-common.c:100-119 | after migration, the new list, the retired list and the chain own distinct images that were never released |
| LocalMaps.Migrate | src/Los-common.c:100-101 | the lists' links stay, and the current list and new list hold the results of the migration pass |
| LocalMaps.LocalMapCache.constructor | src/mi/Lmaps.c:29-32 | no list, no references, no retired chain |
| LocalMaps.LocalMapCache.DestroyList | src/Los-common.c:122 | every node of the list and every image a node owns is released, each exactly once |
| LocalMaps.LocalMapCache.Create | src/mi/Lmaps.c:51-69 | the first user builds the list from fresh nodes holding the enumeration (-1 and no list when it is empty), and nothing is released and the retired chain is untouched; later users take one more reference, and the list and the release ledger stay as they were |
| LocalMaps.LocalMapCache.BuildList | src/mi/Lmaps.c:57-64 | the new list consists of fresh nodes holding the enumerated mappings, and is null exactly when there are none; nothing is released and the retired chain is untouched |
| LocalMaps.LocalMapCache.Destroy | src/mi/Lmaps.c:71-83 | no list: nothing changes; another user remains: one reference less; the last user releases the chain and the list and leaves no list |
| LocalMaps.LocalMapCache.ReleaseAll | src/mi/Lmaps.c:75-81 | the chain and the list are released, each node and each owned image once, and both globals become null |
| LocalMaps.LocalMapCache.CursorGet | src/mi/Lmaps.c:36-41 | the cursor records the current list and no position |
| LocalMaps.LocalMapCache.CursorValid | src/mi/Lmaps.c:43-49 | 0 exactly when the cursor's list is still the current list, -1 otherwise |
| LocalMaps.LocalMapCache.Retire | src/Los-common.c:102-119 | the old list, followed by the old chain, becomes the chain, and the new list becomes current |
| LocalMaps.LocalMapCache.Install | src/Los-common.c:100-119 | images migrate, and the new list becomes current with the old list at the head of the chain |
| LocalMaps.LocalMapCache.Enumerate | src/Los-common.c:96-97 | a list of fresh nodes holding the enumeration, and the first node in it holding addr |
| LocalMaps.LocalMapCache.Discard | src/Los-common.c:121-122 | the unused new list is released and nothing else changes |
| LocalMaps.LocalMapCache.RebuildReturningNode | src/Los-common.c:87-126 | as written, returning the node: a node is returned exactly when the fresh enumeration holds addr, and when the new list was not installed that node is one the call has just released |
| LocalMaps.LocalMapCache.RebuildIfNecessary | src/Los-common.c:87-126 | returns the flags of the enumerated region holding addr; installs the new list exactly when that region exists and expected_flags is 0 or shares a bit with it, otherwise only releases the new list |
| LocalMaps.LocalMapCache.MapsHasProt | src/Los-common.c:128-143 | the protection bit of the region holding addr in the list asked, or failing that in a fresh enumeration; no rebuild when the list asked already has the bit; otherwise the fresh list is installed, with the old list retired, exactly when its region holding addr shares a bit with prot, and only the fresh list is released when not |
| LocalMaps.LocalMapCache.MapsIsReadable | src/Los-common.c:128-143 | the query for PROT_READ, with the same three outcomes for the cache: untouched, rebuilt and installed, or only the fresh list released |
| LocalMaps.LocalMapCache.MapsIsWritable | src/Los-common.c:145-160 | the query for PROT_WRITE, with the same three outcomes for the cache |
| LocalMaps.CreateDestroyBalance | src/mi/Lmaps.c:51-83 | n creates and n - 1 destroys leave the list current with one reference; the last destroy releases every node of the list the first create built, and nothing else; that list cached no image, so no image is released |
| LocalMaps.CursorAcrossRebuild | src/mi/Lmaps.c:43-49 | a cursor taken before a rebuild is invalid after it exactly when the rebuild installed a new list |

## Left out

- Only 64-bit little-endian ELF is modelled. The `Elf_W`/`elf_w` macros also build a
  32-bit variant, which follows the same logic.
- `valid_object`, `tdep_get_func_addr` and `xz_decompress` are parameters
  (`ElfImage.Oracles`). The LZMA decoder and the architecture's function-descriptor
  lookup are not modelled.
- `maps_create_list`, `map_find_from_addr` and `maps_destroy_list` come from files
  that are not part of this model. They are modelled from their uses:
  - the list is ordered by start address;
  - the lookup returns the node holding the address;
  - destruction frees each node and every image it owns that is not shared, as the
    comment at `src/Los-common.c:61-63` describes.
- The OS's enumeration of the process's mappings (`getpid` and `/proc`) is the
  parameter `ms`.
- Locks (`lock_acquire`, `pthread_rwlock_*`) and concurrent readers are not modelled.
  The model is sequential. The atomicity assumption in the comment at
  `src/Los-common.c:113-115` is not checked.
- `Debug` output is not modelled.
- `free(mdi.image)` is not modelled. The MiniDebugInfo image is a value.
- Memory release is recorded in a ghost ledger of released nodes and images, not
  performed.
- LocalMaps.LocalMapCache.RebuildIfNecessary:
  - It requires a current list (`list != null`). Callers hold a reference taken with
    `unw_map_local_create`, as the comment at `src/Los-common.c:83-86` requires. With
    no current list the source would dereference NULL when a chain exists.
  - It returns the flags of the region found rather than the node. On the failure
    path the source returns a pointer into the list it has just destroyed; see
    Findings.
- LocalMaps.LocalMapCache.MapsHasProt requires `Valid()` and a held reference, for the
  same reason. So do `MapsIsReadable` and `MapsIsWritable`.
- Symbols.LookupSymbol:
  - For an image `valid_object` accepts, it requires a full ELF header and every
    section header, symbol and string table header it reads to lie inside the image
    (`LookupReadable`). A symbol's name must be NUL-terminated inside the image only
    when the symbol is a defined function the address oracle resolves. The `Debug`
    call at src/elfxx.c:139-140 reads the name of each such symbol; without debug
    output only an accepted symbol's name is read (lines 148 and 150). The source
    reads all of these unchecked, and reading outside is undefined behaviour. An
    image `valid_object` rejects needs nothing.
  - A symbol table with `sh_entsize = 0` and `sh_size > 0` makes the source loop
    forever; the model skips it (see Findings).
  - It also requires a buffer of at least one byte. The source writes
    `buf[buf_len - 1]`.
  - `Symbols.GetProcNameInImage` has the same requirements of the image
    (`ProcNameReadable`), and of the MiniDebugInfo image only through
    `LookupReadable`, so a decompressed image `valid_object` rejects needs nothing.
- ElfImage.GetLoadOffset requires the program headers it reads to lie inside the
  image (`PhdrsReadableFrom`). The source does not check them.
- ElfImage.FindSection requires the section names it compares to be NUL-terminated
  inside the image (`FindReadable`), and the name sought to contain no NUL. It also
  requires each section header it compares to lie inside the image in full (64
  bytes), although the loop reads only sh_name, sh_offset and sh_size, the first 40
  bytes. The string-table header read by `string_table` needs only those 40 bytes.
- ElfImage.StringTable converts the u32 `sh_link` to the signed `int section` and
  reduces the slot offset modulo 2^64. The `int` product `section * e_shentsize`
  is taken unbounded (its signed overflow is not modelled), and so are the sums
  `str_soff + e_shentsize` and `sh_offset + sh_size`; the same wrap is exhibited for
  `section_table` under Findings.
- ElfImage.FindFrom takes `sh_offset + sh_size` unbounded, for the same reason.
- ElfImage.SectionTable takes `e_shnum * e_shentsize` unbounded. In C both operands
  are promoted to `int` before the product is widened. The product of two 16-bit
  fields can exceed `INT_MAX`, for example 65535 * 65535. That signed overflow is not
  modelled.
- The optional `offp` out-parameter becomes an `Option` result. A NULL `offp` is the
  caller discarding it.
- `get_proc_name` and `tdep_get_elf_image`, which map the image file, are outside the
  modelled core.

## Findings

| source | as written | input that shows it | evidently intended | confidence | as-written member | corrected member |
|---|---|---|---|---|---|---|
| src/elfxx.c:45 | `soff + e_shnum * e_shentsize > ei->size` is computed in 64-bit unsigned arithmetic and can wrap | e_shoff = 2^64 - 64, e_shnum = 1, e_shentsize = 64, image of 64 bytes: the sum wraps to 0, the test passes and the section table is placed 2^64 - 64 bytes past the image | reject any section table that does not lie inside the image | not executed | ElfImage.SectionTableWraps | ElfImage.SectionTableBounds |
| src/elfxx.c:128-130 | the inner loop advances `sym` by `sh_entsize` and stops only when it reaches `symtab_end` | a valid object whose SHT_SYMTAB section has sh_size = 24, sh_entsize = 0 and a valid string table: `sym` never moves, so lookup_symbol never returns | skip a symbol table whose entry size is 0 | not executed | Symbols.ZeroStrideNeverAdvances | Symbols.ScanSymtab |
| src/Los-common.c:121-125 | when the new list is not installed, `maps_destroy_list(new_list)` runs and then the node found in that list is returned; `maps_is_readable` and `maps_is_writable` then read `map->flags` (lines 139-140, 155-156) | maps_is_readable on an address inside a region mapped without PROT_READ, such as a guard page: the rebuild finds the region, releases the new list and returns its node, whose flags are read after release | read the flags before releasing the list and return them | not executed | LocalMaps.LocalMapCache.RebuildReturningNode | LocalMaps.LocalMapCache.RebuildIfNecessary |
