// tools/elf2bflt.py: from linked ELF sections to a bFLT v2 file.
module Elf2Bflt {
  import opened Prelude
  import opened Bytes
  import opened Elf

  datatype Error = NoTextSection | StructError | ZeroDivision | OffsetLimit | TextRelocations(count: nat)
  datatype Result<+T> = Ok(value: T) | Err(error: Error)

  const OFFSET_MASK := 0x03FF_FFFF
  const FLAT_RELOC_TYPE_TEXT := 0
  const BFLT_HEADER_SIZE := 64
  const BFLT_MAGIC: bytes := [98, 70, 76, 84]
  const BFLT_VERSION := 2
  const FLAT_FLAG_RAM := 1
  const BFLT_DEFAULT_STACK := 65536

  datatype Layout = Layout(text: bytes, textEnd: nat, dataVa: nat, data: bytes, bssVa: nat, bssSize: nat)

  function PadTo(b: bytes, n: int): (r: bytes)
    ensures |r| == (if |b| < n then n else |b|) && b <= r
  {
    if |b| < n then b + Zeros(n - |b|) else b
  }

  function TextBytes(elf: bytes, s: Sections): bytes {
    var text := Slice(elf, s.text);
    if s.rodata.None? then text
    else
      var gap := s.rodata.value.addr - s.text.End();
      (if gap > 0 then text + Zeros(gap) else text) + Slice(elf, s.rodata.value)
  }

  function AppendSection(elf: bytes, data: bytes, dataVa: nat, s: Section): bytes {
    PadTo(data, s.addr - dataVa) + Slice(elf, s)
  }

  // The non-empty ones of .data and .got, by address.
  function DataSections(s: Sections): seq<Section> {
    var d := if s.data.Some? && s.data.value.size > 0 then [s.data.value] else [];
    var g := if s.got.Some? && s.got.value.size > 0 then [s.got.value] else [];
    if |d| == 1 && |g| == 1 && g[0].addr < d[0].addr then g + d else d + g
  }

  function DataBytes(elf: bytes, dataVa: nat, parts: seq<Section>): bytes {
    if parts == [] then []
    else AppendSection(elf, DataBytes(elf, dataVa, parts[..|parts| - 1]), dataVa, parts[|parts| - 1])
  }

  function DataStart(s: Sections, textEnd: nat): nat {
    match (s.data, s.got)
    case (None, None) => textEnd
    case (Some(d), None) => d.addr
    case (None, Some(g)) => g.addr
    case (Some(d), Some(g)) => if g.addr < d.addr then g.addr else d.addr
  }

  function LayOut(elf: bytes, s: Sections): Layout {
    var text0 := TextBytes(elf, s);
    var dataVa := DataStart(s, s.text.addr + |text0|);
    var text := PadTo(text0, dataVa - s.text.addr);
    var data0 := DataBytes(elf, dataVa, DataSections(s));
    var bssVa := if s.bss.Some? then s.bss.value.addr else dataVa + |data0|;
    Layout(text, s.text.addr + |text|, dataVa, PadTo(data0, bssVa - dataVa), bssVa,
           if s.bss.Some? then s.bss.value.size else 0)
  }

  // ---- Walking the relocation sections -------------------------------------

  // Sections whose entries extract_relocs_v2 reads: an index past the table is not skipped.
  predicate AbsLoaded(secs: seq<Section>, s: Section) {
    s.kind == SHT_REL && (s.info < |secs| ==> secs[s.info].Alloc())
  }

  // Sections whose entries extract_got_relocs reads.
  predicate GotLoaded(secs: seq<Section>, s: Section) {
    s.kind == SHT_REL && s.info < |secs| && secs[s.info].Alloc()
  }

  function WalkEntries<A>(elf: bytes, s: Section, i: nat, n: nat, visit: (Rel, A) -> Result<A>, acc: A): Result<A>
    decreases n - i
  {
    if i >= n then Ok(acc)
    else if s.offset + 8 * i + 8 > |elf| then Err(StructError)
    else match visit(RelAt(elf, s.offset + 8 * i), acc)
      case Err(e) => Err(e)
      case Ok(next) => WalkEntries(elf, s, i + 1, n, visit, next)
  }

  function WalkSection<A>(elf: bytes, s: Section, visit: (Rel, A) -> Result<A>, acc: A): Result<A> {
    if s.entsize == 0 then Err(ZeroDivision)
    else WalkEntries(elf, s, 0, s.size / s.entsize, visit, acc)
  }

  function WalkSections<A>(elf: bytes, secs: seq<Section>, k: nat, loaded: Section -> bool,
                           visit: (Rel, A) -> Result<A>, acc: A): Result<A>
    decreases |secs| - k
  {
    if k >= |secs| then Ok(acc)
    else if !loaded(secs[k]) then WalkSections(elf, secs, k + 1, loaded, visit, acc)
    else match WalkSection(elf, secs[k], visit, acc)
      case Err(e) => Err(e)
      case Ok(next) => WalkSections(elf, secs, k + 1, loaded, visit, next)
  }

  // ---- Sites named by ABS32 entries ----------------------------------------

  datatype Reloc = Reloc(entry: nat, offset: nat)

  function TextReloc(offset: nat): (r: Reloc)
    ensures offset <= OFFSET_MASK ==> r.entry == offset < WORD
  {
    Reloc(FLAT_RELOC_TYPE_TEXT * 0x400_0000 + offset % 0x400_0000, offset)
  }

  datatype AbsScan = AbsScan(inText: nat, relocs: seq<Reloc>)

  function VisitAbs(lay: Layout, r: Rel, acc: AbsScan): Result<AbsScan> {
    if r.kind != R_ARM_ABS32 then Ok(acc)
    else if r.va < lay.textEnd then Ok(acc.(inText := acc.inText + 1))
    else if r.va < lay.dataVa || r.va >= lay.bssVa then Ok(acc)
    else
      var offset := r.va - lay.dataVa;
      if offset + 4 > |lay.data| then Err(StructError)
      else if offset > OFFSET_MASK then Err(OffsetLimit)
      else Ok(acc.(relocs := acc.relocs + [TextReloc(offset)]))
  }

  function AbsVisitor(lay: Layout): (Rel, AbsScan) -> Result<AbsScan> {
    (r, acc) => VisitAbs(lay, r, acc)
  }

  function AbsFilter(secs: seq<Section>): Section -> bool {
    s => AbsLoaded(secs, s)
  }

  ghost function AbsRelocs(elf: bytes, secs: seq<Section>, lay: Layout): Result<seq<Reloc>> {
    match WalkSections(elf, secs, 0, AbsFilter(secs), AbsVisitor(lay), AbsScan(0, []))
    case Err(e) => Err(e)
    case Ok(scan) => if scan.inText > 0 then Err(TextRelocations(scan.inText)) else Ok(SortByOffset(scan.relocs))
  }

  // ---- GOT slots found through literal pools -------------------------------

  function VisitGot(elf: bytes, text: Section, existing: set<nat>, r: Rel, acc: set<nat>): Result<set<nat>> {
    if r.kind != R_ARM_GOT_BREL then Ok(acc)
    else match UnpackFrom(elf, text.offset + (r.va - text.addr))
      case None => Err(StructError)
      case Some(slot) => Ok(if slot in existing then acc else acc + {slot})
  }

  function GotVisitor(elf: bytes, text: Section, existing: set<nat>): (Rel, set<nat>) -> Result<set<nat>> {
    (r, acc) => VisitGot(elf, text, existing, r, acc)
  }

  function GotFilter(secs: seq<Section>): Section -> bool {
    s => GotLoaded(secs, s)
  }

  // sorted(offsets)
  ghost function Ascending(s: set<nat>): seq<nat> {
    if s == {} then [] else [Least(s)] + Ascending(s - {Least(s)})
  }

  ghost function Least(s: set<nat>): (least: nat)
    requires s != {}
    ensures least in s && forall y :: y in s ==> least <= y
  {
    var x :| x in s;
    if s == {x} then x
    else
      var rest := Least(s - {x});
      assert forall y :: y in s ==> y == x || y in s - {x};
      if x < rest then x else rest
  }

  function VisitSlot(data: bytes, slot: nat, acc: seq<Reloc>): Result<seq<Reloc>> {
    if slot + 4 > |data| || UnpackLe(data, slot) == 0 then Ok(acc)
    else if slot > OFFSET_MASK then Err(OffsetLimit)
    else Ok(acc + [TextReloc(slot)])
  }

  ghost function SlotRelocs(data: bytes, slots: seq<nat>, acc: seq<Reloc>): Result<seq<Reloc>> {
    if slots == [] then Ok(acc)
    else match VisitSlot(data, slots[0], acc)
      case Err(e) => Err(e)
      case Ok(next) => SlotRelocs(data, slots[1..], next)
  }

  function Offsets(relocs: seq<Reloc>): set<nat> {
    set r | r in relocs :: r.offset
  }

  ghost function GotRelocs(elf: bytes, secs: seq<Section>, text: Section, data: bytes, existing: set<nat>): Result<seq<Reloc>> {
    match WalkSections(elf, secs, 0, GotFilter(secs), GotVisitor(elf, text, existing), {})
    case Err(e) => Err(e)
    case Ok(slots) =>
      match SlotRelocs(data, Ascending(slots), [])
      case Err(e) => Err(e)
      case Ok(relocs) => Ok(SortByOffset(relocs))
  }

  predicate Sorted(s: seq<Reloc>) {
    forall i :: 0 < i < |s| ==> s[i - 1].offset <= s[i].offset
  }

  // list.sort(key=lambda r: r[1]): stable, by offset.
  function SortByOffset(relocs: seq<Reloc>): (r: seq<Reloc>)
    ensures multiset(r) == multiset(relocs)
    ensures Sorted(r)
  {
    if relocs == [] then []
    else
      var n := |relocs| - 1;
      assert relocs == relocs[..n] + [relocs[n]];
      InsertKeeps(SortByOffset(relocs[..n]), relocs[n]);
      Insert(SortByOffset(relocs[..n]), relocs[n])
  }

  // Behind every entry with the same or a smaller offset.
  function Insert(sorted: seq<Reloc>, r: Reloc): seq<Reloc> {
    if sorted == [] then [r]
    else if r.offset < sorted[0].offset then [r] + sorted
    else [sorted[0]] + Insert(sorted[1..], r)
  }

  lemma {:induction false} InsertKeeps(sorted: seq<Reloc>, r: Reloc)
    requires Sorted(sorted)
    ensures multiset(Insert(sorted, r)) == multiset(sorted) + multiset{r}
    ensures Sorted(Insert(sorted, r))
    ensures Insert(sorted, r)[0] == if sorted == [] || r.offset < sorted[0].offset then r else sorted[0]
  {
    if sorted != [] {
      assert sorted == [sorted[0]] + sorted[1..];
      if sorted[0].offset <= r.offset { InsertKeeps(sorted[1..], r); }
    }
  }

  // ---- The output file ------------------------------------------------------

  function Table(relocs: seq<Reloc>): (t: bytes)
    requires forall r :: r in relocs ==> r.entry < WORD
    ensures |t| == 4 * |relocs|
  {
    if relocs == [] then []
    else Table(relocs[..|relocs| - 1]) + PackBe(relocs[|relocs| - 1].entry)
  }

  function Join(words: seq<bytes>): bytes {
    if words == [] then [] else words[0] + Join(words[1..])
  }

  // The header's big-endian words and its little-endian flags.
  function HeaderWords(dataStart: nat, dataEnd: nat, bssEnd: nat, stack: nat, count: nat): seq<bytes>
    requires dataStart < WORD && dataEnd < WORD && bssEnd < WORD && stack < WORD && count < WORD
  {
    [BFLT_MAGIC, PackBe(BFLT_VERSION), PackBe(BFLT_HEADER_SIZE), PackBe(dataStart), PackBe(dataEnd), PackBe(bssEnd),
     PackBe(stack), PackBe(dataEnd), PackBe(count), PackLe(FLAT_FLAG_RAM)]
  }

  // A word struct.pack refuses is a StructError.
  function BuildBflt(text: bytes, data: bytes, bssSize: nat, relocs: seq<Reloc>, stack: nat): Result<bytes> {
    var dataStart := BFLT_HEADER_SIZE + |text|;
    var dataEnd := dataStart + |data|;
    var bssEnd := dataEnd + bssSize;
    if bssEnd >= WORD || |relocs| >= WORD || stack >= WORD || (exists r :: r in relocs && r.entry >= WORD) then Err(StructError)
    else
      var header := Join(HeaderWords(dataStart, dataEnd, bssEnd, stack, |relocs|));
      Ok(Join([PadTo(header, BFLT_HEADER_SIZE), text, data, Table(relocs)]))
  }

  ghost function Convert(elf: bytes, secs: seq<Section>): Result<bytes> {
    match FindSections(secs)
    case None => Err(NoTextSection)
    case Some(s) =>
      var lay := LayOut(elf, s);
      match AbsRelocs(elf, secs, lay)
      case Err(e) => Err(e)
      case Ok(abs) =>
        match GotRelocs(elf, secs, s.text, lay.data, Offsets(abs))
        case Err(e) => Err(e)
        case Ok(got) => BuildBflt(lay.text, lay.data, lay.bssSize, SortByOffset(abs + got), BFLT_DEFAULT_STACK)
  }
}
