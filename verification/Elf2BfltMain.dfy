// The converter's loops, working in place on the data bytes.
module Elf2BfltMain {
  import opened Prelude
  import opened Bytes
  import opened Elf
  import opened Elf2Bflt

  // struct.pack_into('<I', data, at, v)
  method PackInto(data: array<byte>, at: nat, v: nat)
    requires at + 4 <= data.Length && v < WORD
    modifies data
    ensures data[..] == Poke(old(data[..]), at, v)
  {
    var word := PackLe(v);
    data[at], data[at + 1], data[at + 2], data[at + 3] := word[0], word[1], word[2], word[3];
    assert data[..] == Poke(old(data[..]), at, v);
  }

  // One ABS32 site: the patch writes back the link-time address it reads.
  method PatchSite(data: array<byte>, at: nat)
    requires at + 4 <= data.Length
    modifies data
    ensures data[..] == old(data[..])
  {
    var targetVa := UnpackLe(data[..], at);
    PokeSame(data[..], at);
    PackInto(data, at, targetVa);
  }

  method ExtractRelocsV2(elf: bytes, secs: seq<Section>, lay: Layout, data: array<byte>) returns (r: Result<seq<Reloc>>)
    requires data[..] == lay.data
    modifies data
    ensures r == AbsRelocs(elf, secs, lay)
    ensures data[..] == old(data[..])
  {
    var scan := AbsScan(0, []);
    var k := 0;
    while k < |secs|
      invariant 0 <= k <= |secs| && data[..] == lay.data
      invariant WalkSections(elf, secs, 0, AbsFilter(secs), AbsVisitor(lay), AbsScan(0, []))
             == WalkSections(elf, secs, k, AbsFilter(secs), AbsVisitor(lay), scan)
    {
      var sec := secs[k];
      if AbsLoaded(secs, sec) {
        if sec.entsize == 0 { return Err(ZeroDivision); }
        var count := sec.size / sec.entsize;
        ghost var scan0 := scan;
        var i := 0;
        while i < count
          invariant 0 <= i <= count && data[..] == lay.data
          invariant WalkEntries(elf, sec, 0, count, AbsVisitor(lay), scan0) == WalkEntries(elf, sec, i, count, AbsVisitor(lay), scan)
        {
          if sec.offset + 8 * i + 8 > |elf| { return Err(StructError); }
          var rel := RelAt(elf, sec.offset + 8 * i);
          assert AbsVisitor(lay)(rel, scan) == VisitAbs(lay, rel, scan);
          if rel.kind == R_ARM_ABS32 {
            if rel.va < lay.textEnd {
              scan := scan.(inText := scan.inText + 1);
            } else if lay.dataVa <= rel.va < lay.bssVa {
              var offset := rel.va - lay.dataVa;
              if offset + 4 > data.Length { return Err(StructError); }
              PatchSite(data, offset);
              if offset > OFFSET_MASK { return Err(OffsetLimit); }
              scan := scan.(relocs := scan.relocs + [TextReloc(offset)]);
            }
          }
          i := i + 1;
        }
      }
      k := k + 1;
    }
    if scan.inText > 0 { return Err(TextRelocations(scan.inText)); }
    return Ok(SortByOffset(scan.relocs));
  }

  // sorted(offsets)
  method SortedOffsets(offsets: set<nat>) returns (r: seq<nat>)
    ensures r == Ascending(offsets)
  {
    r := [];
    var rest := offsets;
    while rest != {}
      invariant r + Ascending(rest) == Ascending(offsets)
      decreases rest
    {
      assert Least(rest) in rest;
      var x :| x in rest && forall y :: y in rest ==> x <= y;
      assert x == Least(rest);
      r := r + [x];
      rest := rest - {x};
    }
  }

  method ExtractGotRelocs(elf: bytes, secs: seq<Section>, text: Section, data: array<byte>, existing: set<nat>)
    returns (r: Result<seq<Reloc>>)
    modifies data
    ensures r == GotRelocs(elf, secs, text, old(data[..]), existing)
    ensures data[..] == old(data[..])
  {
    var slots: set<nat> := {};
    var k := 0;
    while k < |secs|
      invariant 0 <= k <= |secs| && data[..] == old(data[..])
      invariant WalkSections(elf, secs, 0, GotFilter(secs), GotVisitor(elf, text, existing), {})
             == WalkSections(elf, secs, k, GotFilter(secs), GotVisitor(elf, text, existing), slots)
    {
      var sec := secs[k];
      if GotLoaded(secs, sec) {
        if sec.entsize == 0 { return Err(ZeroDivision); }
        var count := sec.size / sec.entsize;
        ghost var slots0 := slots;
        var i := 0;
        while i < count
          invariant 0 <= i <= count && data[..] == old(data[..])
          invariant WalkEntries(elf, sec, 0, count, GotVisitor(elf, text, existing), slots0)
                 == WalkEntries(elf, sec, i, count, GotVisitor(elf, text, existing), slots)
        {
          if sec.offset + 8 * i + 8 > |elf| { return Err(StructError); }
          var rel := RelAt(elf, sec.offset + 8 * i);
          assert GotVisitor(elf, text, existing)(rel, slots) == VisitGot(elf, text, existing, rel, slots);
          if rel.kind == R_ARM_GOT_BREL {
            var literal := UnpackFrom(elf, text.offset + (rel.va - text.addr));
            if literal.None? { return Err(StructError); }
            if literal.value !in existing { slots := slots + {literal.value}; }
          }
          i := i + 1;
        }
      }
      k := k + 1;
    }
    var order := SortedOffsets(slots);
    r := PatchSlots(data, order);
    if r.Ok? { r := Ok(SortByOffset(r.value)); }
  }

  method PatchSlots(data: array<byte>, order: seq<nat>) returns (r: Result<seq<Reloc>>)
    modifies data
    ensures r == SlotRelocs(old(data[..]), order, [])
    ensures data[..] == old(data[..])
  {
    var relocs := [];
    var j := 0;
    assert order[0..] == order;
    while j < |order|
      invariant 0 <= j <= |order| && data[..] == old(data[..])
      invariant SlotRelocs(old(data[..]), order, []) == SlotRelocs(old(data[..]), order[j..], relocs)
    {
      var slot := order[j];
      assert order[j..][0] == slot && order[j..][1..] == order[j + 1..];
      if slot + 4 <= data.Length && UnpackLe(data[..], slot) != 0 {
        PatchSite(data, slot);
        if slot > OFFSET_MASK { return Err(OffsetLimit); }
        relocs := relocs + [TextReloc(slot)];
      }
      j := j + 1;
    }
    return Ok(relocs);
  }

  method PackTable(relocs: seq<Reloc>) returns (t: bytes)
    requires forall r :: r in relocs ==> r.entry < WORD
    ensures t == Table(relocs)
  {
    t := [];
    assert relocs[..|relocs|] == relocs;
    for i := 0 to |relocs|
      invariant t == Table(relocs[..i])
    {
      assert relocs[..i + 1][..i] == relocs[..i] && relocs[..i + 1][i] == relocs[i];
      t := t + PackBe(relocs[i].entry);
    }
  }

  method BuildFile(text: bytes, data: bytes, bssSize: nat, relocs: seq<Reloc>, stack: nat) returns (r: Result<bytes>)
    ensures r == BuildBflt(text, data, bssSize, relocs, stack)
  {
    var dataStart := BFLT_HEADER_SIZE + |text|;
    var dataEnd := dataStart + |data|;
    var bssEnd := dataEnd + bssSize;
    if bssEnd >= WORD || |relocs| >= WORD || stack >= WORD || (exists e :: e in relocs && e.entry >= WORD) {
      return Err(StructError);
    }
    var header := Join(HeaderWords(dataStart, dataEnd, bssEnd, stack, |relocs|));
    var table := PackTable(relocs);
    return Ok(Join([PadTo(header, BFLT_HEADER_SIZE), text, data, table]));
  }

  // The .data and .got bytes, appended section by section.
  method CollectData(elf: bytes, dataVa: nat, parts: seq<Section>) returns (data: bytes)
    ensures data == DataBytes(elf, dataVa, parts)
  {
    data := [];
    assert parts[..|parts|] == parts;
    for i := 0 to |parts|
      invariant data == DataBytes(elf, dataVa, parts[..i])
    {
      assert parts[..i + 1][..i] == parts[..i] && parts[..i + 1][i] == parts[i];
      data := AppendSection(elf, data, dataVa, parts[i]);
    }
  }

  method ConvertElf(elf: bytes, secs: seq<Section>) returns (r: Result<bytes>)
    ensures r == Convert(elf, secs)
  {
    hide DataBytes, TextBytes, AbsRelocs, GotRelocs, SortByOffset, BuildBflt, PadTo;
    var found := FindSections(secs);
    if found.None? { return Err(NoTextSection); }
    var s := found.value;
    var text0 := TextBytes(elf, s);
    var dataVa := DataStart(s, s.text.addr + |text0|);
    var text := PadTo(text0, dataVa - s.text.addr);
    var data0 := CollectData(elf, dataVa, DataSections(s));
    var bssVa := if s.bss.Some? then s.bss.value.addr else dataVa + |data0|;
    var bssSize := if s.bss.Some? then s.bss.value.size else 0;
    var padded := PadTo(data0, bssVa - dataVa);
    var lay := Layout(text, s.text.addr + |text|, dataVa, padded, bssVa, bssSize);
    var data := new byte[|padded|](i requires 0 <= i < |padded| => padded[i]);
    assert data[..] == padded;

    var abs := ExtractRelocsV2(elf, secs, lay, data);
    if abs.Err? { return Err(abs.error); }
    var got := ExtractGotRelocs(elf, secs, s.text, data, Offsets(abs.value));
    if got.Err? { return Err(got.error); }
    r := BuildFile(text, data[..], bssSize, SortByOffset(abs.value + got.value), BFLT_DEFAULT_STACK);
  }
}
