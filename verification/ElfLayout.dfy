// The converter's flattened text and data are the linked image, byte for byte.
module ElfLayout {
  import opened Prelude
  import opened Bytes
  import opened Elf
  import opened Elf2Bflt

  ghost predicate IsImage(elf: bytes, s: Sections, va: nat, b: bytes)
    requires s.InFile(elf)
  {
    forall i :: 0 <= i < |b| ==> b[i] == s.ImageByte(elf, va + i)
  }

  // A section's bytes, as far as the file has them.
  lemma SliceIs(elf: bytes, s: Section)
    ensures |Slice(elf, s)| == if s.InFile(elf) then s.size else if s.offset <= |elf| then |elf| - s.offset else 0
    ensures forall i :: 0 <= i < |Slice(elf, s)| ==> Slice(elf, s)[i] == elf[s.offset + i]
  {
  }

  lemma TextIs(elf: bytes, s: Sections)
    requires s.WellLaidOut(elf)
    ensures |TextBytes(elf, s)| == s.TextEnd() <= s.DataVa()
    ensures IsImage(elf, s, 0, TextBytes(elf, s))
  {
    SliceIs(elf, s.text);
    if s.rodata.Some? { SliceIs(elf, s.rodata.value); }
  }

  // No section holds the addresses lo..hi.
  ghost predicate Gap(s: Sections, lo: nat, hi: int) {
    && (s.text.End() <= lo || hi <= s.text.addr)
    && (s.rodata.Some? ==> s.rodata.value.End() <= lo || hi <= s.rodata.value.addr)
    && (s.data.Some? ==> s.data.value.End() <= lo || hi <= s.data.value.addr || s.data.value.size == 0)
    && (s.got.Some? ==> s.got.value.End() <= lo || hi <= s.got.value.addr || s.got.value.size == 0)
  }

  lemma GapByte(elf: bytes, s: Sections, lo: nat, hi: int, va: nat)
    requires s.InFile(elf) && Gap(s, lo, hi) && lo <= va < hi
    ensures s.ImageByte(elf, va) == 0
  {
  }

  lemma PartByte(elf: bytes, s: Sections, part: Section, va: nat)
    requires s.WellLaidOut(elf) && (Some(part) == s.data || Some(part) == s.got) && part.Covers(va)
    ensures s.ImageByte(elf, va) == elf[part.offset + (va - part.addr)]
  {
  }

  // Padding reaches up to an address below which nothing else lies.
  lemma PadIs(elf: bytes, s: Sections, va: nat, b: bytes, n: int)
    requires s.InFile(elf) && IsImage(elf, s, va, b) && Gap(s, va + |b|, va + n)
    ensures IsImage(elf, s, va, PadTo(b, n)) && |PadTo(b, n)| == if |b| < n then n else |b|
  {
    var padded := PadTo(b, n);
    forall i | 0 <= i < |padded| ensures padded[i] == s.ImageByte(elf, va + i) {
      if i >= |b| { GapByte(elf, s, va + |b|, va + n, va + i); }
    }
  }

  lemma AppendIs(elf: bytes, s: Sections, data: bytes, part: Section)
    requires s.WellLaidOut(elf) && IsImage(elf, s, s.DataVa(), data)
    requires Some(part) == s.data || Some(part) == s.got
    requires s.DataVa() + |data| <= part.addr && Gap(s, s.DataVa() + |data|, part.addr)
    ensures |AppendSection(elf, data, s.DataVa(), part)| == part.End() - s.DataVa()
    ensures IsImage(elf, s, s.DataVa(), AppendSection(elf, data, s.DataVa(), part))
  {
    SliceIs(elf, part);
    var dataVa := s.DataVa();
    PadIs(elf, s, dataVa, data, part.addr - dataVa);
    ConcatIs(elf, s, dataVa, PadTo(data, part.addr - dataVa), part);
  }

  lemma ConcatIs(elf: bytes, s: Sections, va: nat, b: bytes, part: Section)
    requires s.WellLaidOut(elf) && IsImage(elf, s, va, b) && va + |b| == part.addr
    requires Some(part) == s.data || Some(part) == s.got
    ensures IsImage(elf, s, va, b + Slice(elf, part))
  {
    var all := b + Slice(elf, part);
    SliceIs(elf, part);
    forall i | 0 <= i < |all| ensures all[i] == s.ImageByte(elf, va + i) {
      if i >= |b| {
        PartByte(elf, s, part, va + i);
        assert all[i] == Slice(elf, part)[i - |b|];
      }
    }
  }

  lemma DataIs(elf: bytes, s: Sections)
    requires s.WellLaidOut(elf)
    ensures |DataBytes(elf, s.DataVa(), DataSections(s))| == s.DataEnd() - s.DataVa()
    ensures IsImage(elf, s, s.DataVa(), DataBytes(elf, s.DataVa(), DataSections(s)))
  {
    hide AppendSection;
    var parts := DataSections(s);
    var none: bytes := [];
    assert DataBytes(elf, s.DataVa(), []) == none;
    if |parts| >= 1 {
      FirstPart(elf, s);
      var one := AppendSection(elf, none, s.DataVa(), parts[0]);
      assert parts[..1][..0] == [] && parts[..1][0] == parts[0];
      assert DataBytes(elf, s.DataVa(), parts[..1]) == one;
      AppendIs(elf, s, none, parts[0]);
      if |parts| == 2 {
        assert DataBytes(elf, s.DataVa(), parts) == AppendSection(elf, one, s.DataVa(), parts[1]);
        AppendIs(elf, s, one, parts[1]);
      } else {
        assert parts[..1] == parts;
      }
    }
  }

  // The parts come in address order with nothing between them.
  lemma FirstPart(elf: bytes, s: Sections)
    requires s.WellLaidOut(elf) && |DataSections(s)| >= 1
    ensures var parts := DataSections(s);
            && |parts| <= 2
            && s.DataVa() <= parts[0].addr && Gap(s, s.DataVa(), parts[0].addr)
            && (Some(parts[0]) == s.data || Some(parts[0]) == s.got)
            && (|parts| == 1 ==> parts[0].End() == s.DataEnd())
            && (|parts| == 2 ==> parts[0].End() <= parts[1].addr && parts[1].End() == s.DataEnd()
                                 && (Some(parts[1]) == s.data || Some(parts[1]) == s.got) && Gap(s, parts[0].End(), parts[1].addr))
  {
  }

  // Text, data and bss of the output sit at their link-time addresses.
  lemma LayOutIsImage(elf: bytes, s: Sections)
    requires s.WellLaidOut(elf)
    ensures var lay := LayOut(elf, s);
            && lay.textEnd == lay.dataVa == |lay.text| == s.DataVa()
            && lay.bssVa == s.BssVa() == s.DataVa() + |lay.data|
            && lay.bssVa + lay.bssSize == s.BssEnd()
            && lay.text + lay.data + Zeros(lay.bssSize) == s.Image(elf)
  {
    TextIs(elf, s);
    DataIs(elf, s);
    StartIs(elf, s);
    var text0, data0 := TextBytes(elf, s), DataBytes(elf, s.DataVa(), DataSections(s));
    TailGaps(elf, s);
    PadIs(elf, s, 0, text0, s.DataVa());
    PadIs(elf, s, s.DataVa(), data0, s.BssVa() - s.DataVa());
    WholeIs(elf, s, PadTo(text0, s.DataVa()), PadTo(data0, s.BssVa() - s.DataVa()), s.BssEnd() - s.BssVa());
  }

  // The addresses computed from the bytes are those computed from the sections.
  lemma StartIs(elf: bytes, s: Sections)
    requires s.WellLaidOut(elf)
    requires |TextBytes(elf, s)| == s.TextEnd()
    requires |DataBytes(elf, s.DataVa(), DataSections(s))| == s.DataEnd() - s.DataVa()
    ensures LayOut(elf, s) == Layout(PadTo(TextBytes(elf, s), s.DataVa()), s.DataVa(), s.DataVa(),
                                     PadTo(DataBytes(elf, s.DataVa(), DataSections(s)), s.BssVa() - s.DataVa()),
                                     s.BssVa(), s.BssEnd() - s.BssVa())
  {
    hide TextBytes, DataBytes;
    assert DataStart(s, s.TextEnd()) == s.DataVa();
  }

  lemma TailGaps(elf: bytes, s: Sections)
    requires s.WellLaidOut(elf)
    ensures s.TextEnd() <= s.DataVa() <= s.DataEnd() <= s.BssVa()
    ensures Gap(s, s.TextEnd(), s.DataVa()) && Gap(s, s.DataEnd(), s.BssVa())
  {
  }

  lemma WholeIs(elf: bytes, s: Sections, text: bytes, data: bytes, bss: nat)
    requires s.WellLaidOut(elf)
    requires |text| == s.DataVa() && s.DataVa() + |data| == s.BssVa() && s.BssVa() + bss == s.BssEnd()
    requires IsImage(elf, s, 0, text) && IsImage(elf, s, s.DataVa(), data)
    ensures text + data + Zeros(bss) == s.Image(elf)
  {
    var whole := text + data + Zeros(bss);
    forall va | 0 <= va < |whole| ensures whole[va] == s.ImageByte(elf, va) {
      if va < |text| {
        assert whole[va] == text[va];
      } else if va < s.BssVa() {
        assert whole[va] == data[va - |text|];
      } else {
        GapByte(elf, s, s.BssVa(), s.BssEnd(), va);
      }
    }
  }
}
