// The parsed ELF file the converter starts from, and the memory image it describes.
module Elf {
  import opened Prelude
  import opened Bytes

  datatype Section = Section(name: string, kind: nat, flags: nat, addr: nat, offset: nat, size: nat, info: nat, entsize: nat) {
    function End(): nat { addr + size }

    predicate Covers(va: int) { addr <= va < addr + size }

    // The section's bytes are all present in the file.
    predicate InFile(elf: bytes) { offset + size <= |elf| }

    // SHF_ALLOC
    predicate Alloc() { flags / 2 % 2 == 1 }
  }

  const SHT_REL := 9
  const R_ARM_ABS32 := 2
  const R_ARM_GOT_BREL := 26

  function FindSection(secs: seq<Section>, name: string): Option<Section> {
    if secs == [] then None
    else if secs[0].name == name then Some(secs[0])
    else FindSection(secs[1..], name)
  }

  // A Python slice data[off:off + size], clipped to the file.
  function Slice(elf: bytes, s: Section): bytes {
    var lo := if s.offset < |elf| then s.offset else |elf|;
    var hi := if s.offset + s.size < |elf| then s.offset + s.size else |elf|;
    elf[lo..hi]
  }

  // The byte a section holds at an address, 0 where there is no such section.
  function ByteOf(elf: bytes, s: Option<Section>, va: nat): byte
    requires s.Some? ==> s.value.InFile(elf)
  {
    if s.Some? && s.value.Covers(va) then elf[s.value.offset + (va - s.value.addr)] else 0
  }

  datatype Sections = Sections(text: Section, rodata: Option<Section>, data: Option<Section>, got: Option<Section>, bss: Option<Section>) {
    function TextEnd(): nat {
      if rodata.Some? then rodata.value.End() else text.End()
    }

    // Lowest address of .data and .got; the end of text when there is neither.
    function DataVa(): nat {
      match (data, got)
      case (None, None) => TextEnd()
      case (Some(d), None) => d.addr
      case (None, Some(g)) => g.addr
      case (Some(d), Some(g)) => if g.addr < d.addr then g.addr else d.addr
    }

    function DataEnd(): nat {
      var d := if data.Some? && data.value.size > 0 then data.value.End() else 0;
      var g := if got.Some? && got.value.size > 0 then got.value.End() else 0;
      if d == g == 0 then DataVa() else if d < g then g else d
    }

    function BssVa(): nat {
      if bss.Some? then bss.value.addr else DataEnd()
    }

    function BssEnd(): nat {
      BssVa() + if bss.Some? then bss.value.size else 0
    }

    predicate InFile(elf: bytes) {
      && text.InFile(elf)
      && (rodata.Some? ==> rodata.value.InFile(elf))
      && (data.Some? ==> data.value.InFile(elf))
      && (got.Some? ==> got.value.InFile(elf))
    }

    // What the linker script guarantees: text at 0, then rodata, then data and
    // GOT in either order, then bss, with word-aligned data and bss.
    predicate WellLaidOut(elf: bytes) {
      && InFile(elf)
      && text.addr == 0
      && (rodata.Some? ==> text.End() <= rodata.value.addr)
      && (data.Some? ==> TextEnd() <= data.value.addr)
      && (got.Some? ==> TextEnd() <= got.value.addr)
      && (data.Some? && got.Some? ==> data.value.End() <= got.value.addr || got.value.End() <= data.value.addr)
      && DataEnd() <= BssVa()
      && DataVa() <= BssVa()
      && DataVa() % 4 == 0
      && BssVa() % 4 == 0
      && BssVa() - DataVa() <= 0x400_0000
      && 64 + BssEnd() < WORD
    }

    // The byte the linked program expects at an address before relocation.
    function ImageByte(elf: bytes, va: nat): byte
      requires InFile(elf)
    {
      if text.Covers(va) then elf[text.offset + (va - text.addr)]
      else if rodata.Some? && rodata.value.Covers(va) then ByteOf(elf, rodata, va)
      else if data.Some? && data.value.Covers(va) then ByteOf(elf, data, va)
      else ByteOf(elf, got, va)
    }

    ghost function Image(elf: bytes): (image: bytes)
      requires InFile(elf)
      ensures |image| == BssEnd()
    {
      seq(BssEnd(), va requires 0 <= va < BssEnd() => ImageByte(elf, va))
    }
  }

  function FindSections(secs: seq<Section>): Option<Sections> {
    var text := FindSection(secs, ".text");
    if text.None? then None
    else Some(Sections(text.value, FindSection(secs, ".rodata"), FindSection(secs, ".data"),
                       FindSection(secs, ".got"), FindSection(secs, ".bss")))
  }

  // One REL entry: the address it names and its relocation type.
  datatype Rel = Rel(va: nat, kind: nat)

  function RelAt(elf: bytes, at: nat): Rel
    requires at + 8 <= |elf|
  {
    Rel(UnpackLe(elf, at), UnpackLe(elf, at + 4) % 256)
  }

  predicate Readable(elf: bytes, s: Section) {
    s.entsize != 0 && s.offset + 8 * (s.size / s.entsize) <= |elf|
  }

  // Entries first..count of a REL section, in file order.
  function SectionRels(elf: bytes, s: Section, first: nat): seq<Rel>
    requires Readable(elf, s) && first <= s.size / s.entsize
    decreases s.size / s.entsize - first
  {
    if first == s.size / s.entsize then []
    else [RelAt(elf, s.offset + 8 * first)] + SectionRels(elf, s, first + 1)
  }

  // struct.unpack_from('<I', elf, off): a negative offset counts from the end.
  function UnpackFrom(elf: bytes, off: int): Option<nat> {
    var at := if off < 0 then off + |elf| else off;
    if at < 0 || at + 4 > |elf| || -4 < off < 0 then None else Some(UnpackLe(elf, at))
  }
}
