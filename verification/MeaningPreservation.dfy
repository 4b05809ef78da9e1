// Loading the converted file is relocating the linked image directly.
module MeaningPreservation {
  import opened Prelude
  import opened Bytes
  import opened Elf
  import opened Elf2Bflt
  import opened FlatLoader
  import opened BfltFile
  import opened ElfLayout
  import opened ElfSites

  // ---- Walking the sections is folding over their entries ------------------

  ghost function Fold<A>(rels: seq<Rel>, visit: (Rel, A) -> Result<A>, acc: A): Result<A> {
    if rels == [] then Ok(acc)
    else match visit(rels[0], acc)
      case Err(e) => Err(e)
      case Ok(next) => Fold(rels[1..], visit, next)
  }

  lemma {:induction false} FoldAppend<A>(a: seq<Rel>, b: seq<Rel>, visit: (Rel, A) -> Result<A>, acc: A)
    ensures Fold(a + b, visit, acc) == match Fold(a, visit, acc) case Err(e) => Err(e) case Ok(mid) => Fold(b, visit, mid)
  {
    if a == [] {
      assert a + b == b;
    } else {
      assert (a + b)[1..] == a[1..] + b;
      if visit(a[0], acc).Ok? { FoldAppend(a[1..], b, visit, visit(a[0], acc).value); }
    }
  }

  lemma {:induction false} EntriesFold<A>(elf: bytes, s: Section, i: nat, visit: (Rel, A) -> Result<A>, acc: A)
    requires Readable(elf, s) && i <= s.size / s.entsize
    ensures WalkEntries(elf, s, i, s.size / s.entsize, visit, acc) == Fold(SectionRels(elf, s, i), visit, acc)
    decreases s.size / s.entsize - i
  {
    if i < s.size / s.entsize {
      var r := RelAt(elf, s.offset + 8 * i);
      assert SectionRels(elf, s, i)[1..] == SectionRels(elf, s, i + 1);
      if visit(r, acc).Ok? { EntriesFold(elf, s, i + 1, visit, visit(r, acc).value); }
    }
  }

  // The two nested loops visit the entries in file order.
  lemma {:induction false} WalkFold<A>(elf: bytes, secs: seq<Section>, k: nat, loaded: Section -> bool,
                                       visit: (Rel, A) -> Result<A>, acc: A)
    requires AllReadable(elf, secs, loaded)
    ensures WalkSections(elf, secs, k, loaded, visit, acc) == Fold(Rels(elf, secs, k, loaded), visit, acc)
    decreases |secs| - k
  {
    if k < |secs| {
      if loaded(secs[k]) {
        var here := SectionRels(elf, secs[k], 0);
        EntriesFold(elf, secs[k], 0, visit, acc);
        FoldAppend(here, Rels(elf, secs, k + 1, loaded), visit, acc);
        match Fold(here, visit, acc)
        case Err(_) =>
        case Ok(mid) => WalkFold(elf, secs, k + 1, loaded, visit, mid);
      } else {
        assert Rels(elf, secs, k, loaded) == Rels(elf, secs, k + 1, loaded);
        WalkFold(elf, secs, k + 1, loaded, visit, acc);
      }
    }
  }

  // ---- What the ABS32 pass collects ----------------------------------------

  ghost function TextCount(rels: seq<Rel>, end: nat): nat {
    if rels == [] then 0
    else (if rels[0].kind == R_ARM_ABS32 && rels[0].va < end then 1 else 0) + TextCount(rels[1..], end)
  }

  // How many ABS32 entries name an address.
  ghost function AbsCount(rels: seq<Rel>, va: nat): nat {
    if rels == [] then 0
    else (if rels[0] == Rel(va, R_ARM_ABS32) then 1 else 0) + AbsCount(rels[1..], va)
  }

  ghost predicate Aligned(rels: seq<Rel>) {
    forall r :: r in rels && r.kind == R_ARM_ABS32 ==> r.va % 4 == 0
  }

  ghost predicate GoodLayout(lay: Layout) {
    && lay.textEnd == lay.dataVa == |lay.text|
    && lay.bssVa == lay.dataVa + |lay.data|
    && lay.dataVa % 4 == 0
    && lay.bssVa % 4 == 0
    && |lay.data| <= 0x400_0000
  }

  ghost predicate TextTyped(relocs: seq<Reloc>) {
    forall r :: r in relocs ==> r == TextReloc(r.offset)
  }

  ghost predicate Fits(relocs: seq<Reloc>, size: nat) {
    && TextTyped(relocs)
    && forall r :: r in relocs ==> r.offset % 4 == 0 && r.offset + 4 <= size
  }

  // How many entries name an offset.
  ghost function Times(relocs: seq<Reloc>, offset: int): nat {
    if relocs == [] then 0
    else (if relocs[0].offset == offset then 1 else 0) + Times(relocs[1..], offset)
  }

  lemma {:induction false} TimesAppend(a: seq<Reloc>, b: seq<Reloc>, offset: int)
    ensures Times(a + b, offset) == Times(a, offset) + Times(b, offset)
  {
    if a == [] {
      assert a + b == b;
    } else {
      assert (a + b)[1..] == a[1..] + b;
      TimesAppend(a[1..], b, offset);
    }
  }

  lemma {:induction false} TimesIsMultiplicity(relocs: seq<Reloc>, offset: nat)
    requires TextTyped(relocs)
    ensures Times(relocs, offset) == multiset(relocs)[TextReloc(offset)]
  {
    if relocs != [] {
      assert relocs[0] in relocs && relocs == [relocs[0]] + relocs[1..];
      assert TextReloc(offset).offset == offset;
      TimesIsMultiplicity(relocs[1..], offset);
    }
  }

  lemma {:induction false} AbsFold(rels: seq<Rel>, lay: Layout, acc: AbsScan)
    requires GoodLayout(lay) && Aligned(rels) && Fits(acc.relocs, |lay.data|)
    ensures var r := Fold(rels, AbsVisitor(lay), acc);
            && r.Ok?
            && r.value.inText == acc.inText + TextCount(rels, lay.textEnd)
            && |r.value.relocs| <= |acc.relocs| + |rels|
            && Fits(r.value.relocs, |lay.data|)
            && forall o: nat {:trigger Times(r.value.relocs, o)} :: o < |lay.data| ==>
                 Times(r.value.relocs, o) == Times(acc.relocs, o) + AbsCount(rels, lay.dataVa + o)
  {
    if rels != [] {
      var r := rels[0];
      assert r in rels;
      assert Aligned(rels[1..]);
      var next := VisitAbs(lay, r, acc);
      assert AbsVisitor(lay)(r, acc) == next;
      if r.kind == R_ARM_ABS32 && lay.dataVa <= r.va < lay.bssVa {
        InData(lay, r);
        assert next.Ok?;
      }
      AbsFold(rels[1..], lay, next.value);
      forall o: nat | o < |lay.data|
        ensures Times(next.value.relocs, o) == Times(acc.relocs, o) + (if r == Rel(lay.dataVa + o, R_ARM_ABS32) then 1 else 0)
      {
        if next.value.relocs != acc.relocs { TimesAppend(acc.relocs, [TextReloc(r.va - lay.dataVa)], o); }
      }
    }
  }

  lemma InData(lay: Layout, r: Rel)
    requires GoodLayout(lay) && r.va % 4 == 0 && lay.dataVa <= r.va < lay.bssVa
    ensures (r.va - lay.dataVa) % 4 == 0 && r.va - lay.dataVa + 4 <= |lay.data|
  {
  }

  // ---- What the GOT pass collects ------------------------------------------

  // The literal a GOT_BREL entry's site holds.
  ghost function Literal(elf: bytes, text: Section, r: Rel): Option<nat> {
    UnpackFrom(elf, text.offset + (r.va - text.addr))
  }

  ghost predicate GotReadable(elf: bytes, text: Section, rels: seq<Rel>) {
    forall r :: r in rels && r.kind == R_ARM_GOT_BREL ==> Literal(elf, text, r).Some? && Literal(elf, text, r).value % 4 == 0
  }

  ghost predicate NamesSlot(elf: bytes, text: Section, rels: seq<Rel>, slot: nat) {
    exists r :: r in rels && r.kind == R_ARM_GOT_BREL && Literal(elf, text, r) == Some(slot)
  }

  lemma {:induction false} GotFold(rels: seq<Rel>, elf: bytes, text: Section, existing: set<nat>, acc: set<nat>)
    requires GotReadable(elf, text, rels)
    ensures var r := Fold(rels, GotVisitor(elf, text, existing), acc);
            && r.Ok? && |r.value| <= |acc| + |rels|
            && forall x :: x in r.value <==> x in acc || (x !in existing && NamesSlot(elf, text, rels, x))
  {
    if rels != [] {
      var r := rels[0];
      assert r in rels;
      assert GotVisitor(elf, text, existing)(r, acc) == VisitGot(elf, text, existing, r, acc);
      assert GotReadable(elf, text, rels[1..]);
      var next := VisitGot(elf, text, existing, r, acc).value;
      GotFold(rels[1..], elf, text, existing, next);
      forall x: nat
        ensures NamesSlot(elf, text, rels, x)
           <==> NamesSlot(elf, text, rels[1..], x) || (r.kind == R_ARM_GOT_BREL && Literal(elf, text, r) == Some(x))
      {
        if NamesSlot(elf, text, rels, x) {
          var q :| q in rels && q.kind == R_ARM_GOT_BREL && Literal(elf, text, q) == Some(x);
          assert q == r || q in rels[1..];
        }
      }
    }
  }

  ghost predicate Distinct(slots: seq<nat>) {
    slots == [] || (slots[0] !in slots[1..] && Distinct(slots[1..]))
  }

  lemma {:induction false} SlotFold(data: bytes, slots: seq<nat>, acc: seq<Reloc>)
    requires |data| <= 0x400_0000 && Fits(acc, |data|)
    requires Distinct(slots)
    requires forall i :: 0 <= i < |slots| ==> slots[i] % 4 == 0
    ensures var r := SlotRelocs(data, slots, acc);
            && r.Ok? && Fits(r.value, |data|) && |r.value| <= |acc| + |slots|
            && forall o: nat {:trigger Times(r.value, o)} :: o + 4 <= |data| ==>
                 Times(r.value, o) == Times(acc, o) + (if o in slots && UnpackLe(data, o) != 0 then 1 else 0)
  {
    if slots != [] {
      var s := slots[0];
      assert s in slots;
      var next := VisitSlot(data, s, acc);
      assert next.Ok?;
      assert TextReloc(s).offset == s;
      SlotFold(data, slots[1..], next.value);
      forall o: nat | o + 4 <= |data|
        ensures Times(next.value, o) == Times(acc, o) + (if o == s && UnpackLe(data, o) != 0 then 1 else 0)
        ensures o in slots <==> o == s || o in slots[1..]
        ensures o == s ==> o !in slots[1..]
      {
        if next.value != acc { TimesAppend(acc, [TextReloc(s)], o); }
      }
    }
  }

  // ---- Applying the table --------------------------------------------------

  // base added n times.
  ghost function Repeated(base: nat, n: nat): nat {
    if n == 0 then 0 else base + Repeated(base, n - 1)
  }

  lemma WrapMore(x: nat, base: nat, n: nat)
    ensures ((x + base) % 0x1_0000_0000 + Repeated(base, n)) % 0x1_0000_0000 == (x + Repeated(base, n + 1)) % 0x1_0000_0000
  {
    var y := Repeated(base, n);
    var q := (x + base) / 0x1_0000_0000;
    assert (x + base) % 0x1_0000_0000 + y == x + base + y - 0x1_0000_0000 * q;
  }

  // How many of the entries from i on name a site.
  ghost function TimesFrom(entries: seq<nat>, i: nat, site: int): nat
    decreases |entries| - i
  {
    if i >= |entries| then 0 else (if entries[i] == site then 1 else 0) + TimesFrom(entries, i + 1, site)
  }

  // TEXT entries for word-aligned sites inside the data.
  ghost predicate Applicable(size: nat, entries: seq<nat>, dataPos: nat, dataSize: nat) {
    && dataSize <= 0x400_0000 && dataPos + dataSize <= size && dataPos % 4 == 0
    && forall i :: 0 <= i < |entries| ==> entries[i] % 4 == 0 && entries[i] + 4 <= dataSize
  }

  // Adding base to the word at `at`, seen at one word and one of its bytes.
  lemma BumpReads(mem: bytes, at: nat, base: nat, w: nat, v: nat)
    requires at + 4 <= |mem| && (w == at || w + 4 <= at || at + 4 <= w) && w <= v < w + 4 && v < |mem|
    ensures var mem1 := Poke(mem, at, (UnpackLe(mem, at) + base) % 0x1_0000_0000);
            && (w + 4 <= |mem| ==> UnpackLe(mem1, w) == if w == at then (UnpackLe(mem, w) + base) % 0x1_0000_0000 else UnpackLe(mem, w))
            && (w != at ==> mem1[v] == mem[v])
  {
    var word := (UnpackLe(mem, at) + base) % 0x1_0000_0000;
    if w + 4 <= |mem| { PokeWord(mem, at, word, w); }
    if w != at { PokeByte(mem, at, word, v); }
  }

  // One table entry of type TEXT: memory afterwards, seen at one word and one of its bytes.
  lemma TextEntry(mem: bytes, entries: seq<nat>, i: nat, dataPos: nat, base: nat, sd: nat, ed: nat, w: nat, v: nat) returns (mem1: bytes)
    requires i < |entries| && entries[i] < 0x400_0000 && dataPos + entries[i] + 4 <= |mem|
    requires w == dataPos + entries[i] || w + 4 <= dataPos + entries[i] || dataPos + entries[i] + 4 <= w
    requires w <= v < w + 4 && v < |mem|
    ensures |mem1| == |mem|
    ensures OldReloc(mem, entries, i, dataPos, base, sd, ed) == OldReloc(mem1, entries, i + 1, dataPos, base, sd, ed)
    ensures w + 4 <= |mem| ==> UnpackLe(mem1, w) == if w == dataPos + entries[i] then (UnpackLe(mem, w) + base) % 0x1_0000_0000 else UnpackLe(mem, w)
    ensures w != dataPos + entries[i] ==> mem1[v] == mem[v]
  {
    var at := dataPos + entries[i];
    assert entries[i] / 0x400_0000 == 0 && entries[i] % 0x400_0000 == entries[i];
    BumpReads(mem, at, base, w, v);
    mem1 := Poke(mem, at, (UnpackLe(mem, at) + base) % 0x1_0000_0000);
  }

  lemma Apart(dataPos: nat, offset: nat, w: nat)
    requires dataPos % 4 == 0 && offset % 4 == 0 && w % 4 == 0
    ensures w == dataPos + offset || w + 4 <= dataPos + offset || dataPos + offset + 4 <= w
  {
  }

  // A word receives the base once for each entry that names it, and a byte
  // outside every named word keeps its value.
  lemma {:induction false} OldRelocReads(mem: bytes, entries: seq<nat>, i: nat, dataPos: nat, dataSize: nat, base: nat,
        sd: nat, ed: nat, w: nat, v: nat)
    returns (out: bytes)
    requires Applicable(|mem|, entries, dataPos, dataSize) && w % 4 == 0 && w <= v < w + 4 && v < |mem|
    ensures OldReloc(mem, entries, i, dataPos, base, sd, ed) == Some(out) && |out| == |mem|
    ensures w + 4 <= |mem| ==> UnpackLe(out, w) == (UnpackLe(mem, w) + Repeated(base, TimesFrom(entries, i, w - dataPos))) % 0x1_0000_0000
    ensures TimesFrom(entries, i, w - dataPos) == 0 ==> out[v] == mem[v]
    decreases |entries| - i
  {
    if i >= |entries| {
      out := mem;
    } else {
      Apart(dataPos, entries[i], w);
      var mem1 := TextEntry(mem, entries, i, dataPos, base, sd, ed, w, v);
      out := OldRelocReads(mem1, entries, i + 1, dataPos, dataSize, base, sd, ed, w, v);
      if w + 4 <= |mem| { WrapMore(UnpackLe(mem, w), base, TimesFrom(entries, i + 1, w - dataPos)); }
    }
  }

  // ---- The whole converter --------------------------------------------------

  ghost predicate RelsReadable(elf: bytes, secs: seq<Section>) {
    forall k :: Relocates(secs, k) ==> Readable(elf, secs[k])
  }

  lemma ReadableIs(elf: bytes, secs: seq<Section>)
    requires RelsReadable(elf, secs)
    ensures AllReadable(elf, secs, AbsFilter(secs)) && AllReadable(elf, secs, GotFilter(secs))
  {
    forall s | s in secs && AbsLoaded(secs, s) ensures Readable(elf, s) {
      var k :| 0 <= k < |secs| && secs[k] == s;
      assert Relocates(secs, k);
    }
  }

  ghost function AbsRels(elf: bytes, secs: seq<Section>): seq<Rel>
    requires RelsReadable(elf, secs)
  {
    ReadableIs(elf, secs);
    Rels(elf, secs, 0, AbsFilter(secs))
  }

  ghost function GotRels(elf: bytes, secs: seq<Section>): seq<Rel>
    requires RelsReadable(elf, secs)
  {
    ReadableIs(elf, secs);
    Rels(elf, secs, 0, GotFilter(secs))
  }

  // ABS32 entries name word-aligned addresses.
  ghost predicate AbsAligned(elf: bytes, secs: seq<Section>) {
    forall k, i :: IsAbs(elf, secs, k, i) ==> EntryVa(elf, secs[k], i) % 4 == 0
  }

  // GOT_BREL entries name literals in the file, and these hold word-aligned offsets.
  ghost predicate Pools(elf: bytes, text: Section, secs: seq<Section>) {
    forall k, i :: IsGot(elf, secs, k, i) ==>
      var at := text.offset + (EntryVa(elf, secs[k], i) - text.addr);
      0 <= at && at + 4 <= |elf| && WordAt(elf, at) % 4 == 0
  }

  // What the linker and the compiler flags guarantee about the input.
  ghost predicate Linked(elf: bytes, secs: seq<Section>, s: Sections) {
    && FindSections(secs) == Some(s)
    && s.WellLaidOut(elf)
    && RelsReadable(elf, secs)
    && AbsAligned(elf, secs)
    && Pools(elf, s.text, secs)
    && |AbsRels(elf, secs)| + |GotRels(elf, secs)| < WORD
  }

  // How many times a word is to be relocated: once per ABS32 entry in the data,
  // and once for a non-zero GOT slot no such entry covers.
  ghost function Multiplicity(elf: bytes, secs: seq<Section>, s: Sections, w: nat): nat
    requires Linked(elf, secs, s)
  {
    if w < s.DataVa() || s.BssVa() < w + 4 then 0
    else
      var n := |AbsAt(elf, secs, w)|;
      if n > 0 then n
      else if Reached(elf, s.text, secs, w - s.DataVa()) && UnpackLe(s.Image(elf), w) != 0 then 1
      else 0
  }

  lemma {:induction false} AbsCountIs(rels: seq<Rel>, va: nat)
    ensures AbsCount(rels, va) == Count(rels, ByVa(va))
    ensures TextCount(rels, va) == Count(rels, Below(va))
  {
    if rels != [] { AbsCountIs(rels[1..], va); }
  }

  // The counts over the first pass's list are numbers of entries of the file.
  lemma AbsCounted(elf: bytes, secs: seq<Section>, va: nat)
    requires RelsReadable(elf, secs)
    ensures AbsCount(AbsRels(elf, secs), va) == |AbsAt(elf, secs, va)|
    ensures TextCount(AbsRels(elf, secs), va) == |AbsBelow(elf, secs, va)|
  {
    ReadableIs(elf, secs);
    AbsCountIs(AbsRels(elf, secs), va);
    AbsListed(elf, secs, va);
  }

  lemma {:induction false} AbsMember(rels: seq<Rel>, r: Rel)
    ensures r.kind == R_ARM_ABS32 ==> (AbsCount(rels, r.va) > 0 <==> r in rels)
  {
    if rels != [] {
      assert rels == [rels[0]] + rels[1..];
      AbsMember(rels[1..], r);
    }
  }

  lemma AbsRelsAligned(elf: bytes, secs: seq<Section>)
    requires RelsReadable(elf, secs) && AbsAligned(elf, secs)
    ensures Aligned(AbsRels(elf, secs))
  {
    forall r | r in AbsRels(elf, secs) && r.kind == R_ARM_ABS32 ensures r.va % 4 == 0 {
      AbsMember(AbsRels(elf, secs), r);
      AbsCounted(elf, secs, r.va);
      var t :| t in AbsAt(elf, secs, r.va);
      assert IsAbs(elf, secs, t.0, t.1);
    }
  }

  lemma LiteralIs(elf: bytes, text: Section, secs: seq<Section>, k: int, i: int)
    requires Pools(elf, text, secs) && IsGot(elf, secs, k, i)
    ensures var r := Rel(EntryVa(elf, secs[k], i), EntryType(elf, secs[k], i));
            && r.kind == R_ARM_GOT_BREL && Literal(elf, text, r).Some? && Literal(elf, text, r).value % 4 == 0
            && forall slot: nat :: Literal(elf, text, r) == Some(slot) <==> ReachesSlot(elf, text, secs, k, i, slot)
  {
    hide EntryVa, EntryType, HasEntry;
    assert forall at: nat :: at + 4 <= |elf| ==> WordAt(elf, at) == UnpackLe(elf, at);
  }

  // The slots the second pass's list names are those the file's entries reach.
  lemma GotNames(elf: bytes, text: Section, secs: seq<Section>)
    requires RelsReadable(elf, secs) && Pools(elf, text, secs)
    ensures GotReadable(elf, text, GotRels(elf, secs))
    ensures forall slot :: NamesSlot(elf, text, GotRels(elf, secs), slot) <==> Reached(elf, text, secs, slot)
  {
    hide EntryVa, EntryType, HasEntry, Literal, ReachesSlot;
    ReadableIs(elf, secs);
    var rels := GotRels(elf, secs);
    forall r | r in rels && r.kind == R_ARM_GOT_BREL
      ensures Literal(elf, text, r).Some? && Literal(elf, text, r).value % 4 == 0
      ensures Reached(elf, text, secs, Literal(elf, text, r).value)
    {
      var k, i := GotPlace(elf, secs, r);
      LiteralIs(elf, text, secs, k, i);
      assert ReachesSlot(elf, text, secs, k, i, Literal(elf, text, r).value);
    }
    forall slot | Reached(elf, text, secs, slot) ensures NamesSlot(elf, text, rels, slot) {
      var k, i :| ReachesSlot(elf, text, secs, k, i, slot);
      assert IsGot(elf, secs, k, i) by { ReachesGot(elf, text, secs, k, i, slot); }
      LiteralIs(elf, text, secs, k, i);
      GotPlaced(elf, secs, k, i);
    }
  }

  lemma ReachesGot(elf: bytes, text: Section, secs: seq<Section>, k: int, i: int, slot: nat)
    requires ReachesSlot(elf, text, secs, k, i, slot)
    ensures IsGot(elf, secs, k, i)
  {
  }

  lemma GotPlace(elf: bytes, secs: seq<Section>, r: Rel) returns (k: int, i: int)
    requires RelsReadable(elf, secs) && r in GotRels(elf, secs) && r.kind == R_ARM_GOT_BREL
    ensures IsGot(elf, secs, k, i) && r == Rel(EntryVa(elf, secs[k], i), EntryType(elf, secs[k], i))
  {
    hide EntryVa, EntryType, HasEntry;
    ReadableIs(elf, secs);
    GotListed(elf, secs, r);
    k, i :| 0 <= k < |secs| && GotFilter(secs)(secs[k]) && HasEntry(elf, secs[k], i) && r == Rel(EntryVa(elf, secs[k], i), EntryType(elf, secs[k], i));
    GotFilterIs(secs, k);
  }

  lemma GotPlaced(elf: bytes, secs: seq<Section>, k: int, i: int)
    requires RelsReadable(elf, secs) && IsGot(elf, secs, k, i)
    ensures Rel(EntryVa(elf, secs[k], i), EntryType(elf, secs[k], i)) in GotRels(elf, secs)
  {
    hide EntryVa, EntryType, HasEntry;
    ReadableIs(elf, secs);
    GotFilterIs(secs, k);
    GotListed(elf, secs, Rel(EntryVa(elf, secs[k], i), EntryType(elf, secs[k], i)));
  }

  lemma SortKeeps(relocs: seq<Reloc>, size: nat)
    requires Fits(relocs, size)
    ensures Fits(SortByOffset(relocs), size) && |SortByOffset(relocs)| == |relocs|
    ensures forall o: nat {:trigger Times(SortByOffset(relocs), o)} :: Times(SortByOffset(relocs), o) == Times(relocs, o)
    ensures forall r :: r in SortByOffset(relocs) <==> r in relocs
  {
    var sorted := SortByOffset(relocs);
    assert forall r :: r in sorted <==> r in multiset(sorted);
    assert |multiset(sorted)| == |multiset(relocs)|;
    forall o: nat ensures Times(sorted, o) == Times(relocs, o) {
      TimesIsMultiplicity(sorted, o);
      TimesIsMultiplicity(relocs, o);
    }
  }

  lemma {:induction false} TimesPositive(relocs: seq<Reloc>, o: nat)
    ensures Times(relocs, o) > 0 <==> o in Offsets(relocs)
  {
    if relocs != [] {
      TimesPositive(relocs[1..], o);
      if o in Offsets(relocs) {
        var r :| r in relocs && r.offset == o;
        assert r == relocs[0] || r in relocs[1..];
      }
      if o in Offsets(relocs[1..]) {
        var r :| r in relocs[1..] && r.offset == o;
        assert r in relocs;
      }
      assert relocs[0] in relocs;
    }
  }

  lemma AbsPass(elf: bytes, secs: seq<Section>, lay: Layout) returns (relocs: seq<Reloc>)
    requires RelsReadable(elf, secs) && AbsAligned(elf, secs) && GoodLayout(lay) && AbsBelow(elf, secs, lay.textEnd) == {}
    ensures AbsRelocs(elf, secs, lay) == Ok(relocs) && Fits(relocs, |lay.data|) && |relocs| <= |AbsRels(elf, secs)|
    ensures forall o: nat {:trigger Times(relocs, o)} :: o < |lay.data| ==> Times(relocs, o) == |AbsAt(elf, secs, lay.dataVa + o)|
  {
    hide AllReadable, RelsReadable, AbsAligned, AbsAt, AbsBelow, Rels, Readable, Aligned, SortByOffset;
    ReadableIs(elf, secs);
    AbsRelsAligned(elf, secs);
    AbsCounted(elf, secs, lay.textEnd);
    WalkFold(elf, secs, 0, AbsFilter(secs), AbsVisitor(lay), AbsScan(0, []));
    AbsFold(AbsRels(elf, secs), lay, AbsScan(0, []));
    var found := Fold(AbsRels(elf, secs), AbsVisitor(lay), AbsScan(0, [])).value.relocs;
    SortKeeps(found, |lay.data|);
    relocs := SortByOffset(found);
    forall o: nat | o < |lay.data| ensures Times(relocs, o) == |AbsAt(elf, secs, lay.dataVa + o)| {
      assert Times([], o) == 0;
      AbsCounted(elf, secs, lay.dataVa + o);
    }
  }

  // A text-section ABS32 entry makes the converter exit with their number.
  lemma TextRelocationRejected(elf: bytes, secs: seq<Section>, s: Sections)
    requires Linked(elf, secs, s) && AbsBelow(elf, secs, s.DataVa()) != {}
    ensures Convert(elf, secs) == Err(TextRelocations(|AbsBelow(elf, secs, s.DataVa())|))
  {
    ReadableIs(elf, secs);
    AbsRelsAligned(elf, secs);
    AbsCounted(elf, secs, s.DataVa());
    LayOutIsImage(elf, s);
    var lay := LayOut(elf, s);
    WalkFold(elf, secs, 0, AbsFilter(secs), AbsVisitor(lay), AbsScan(0, []));
    AbsFold(AbsRels(elf, secs), lay, AbsScan(0, []));
  }

  lemma {:induction false} AscendingIs(s: set<nat>)
    ensures |Ascending(s)| == |s| && Distinct(Ascending(s))
    ensures forall x :: x in Ascending(s) <==> x in s
  {
    if s != {} {
      AscendingIs(s - {Least(s)});
      assert s == (s - {Least(s)}) + {Least(s)};
      assert Ascending(s)[1..] == Ascending(s - {Least(s)});
    }
  }

  lemma GotPass(elf: bytes, secs: seq<Section>, s: Sections, data: bytes, existing: set<nat>) returns (relocs: seq<Reloc>)
    requires Linked(elf, secs, s) && |data| <= 0x400_0000
    ensures GotRelocs(elf, secs, s.text, data, existing) == Ok(relocs)
    ensures Fits(relocs, |data|) && |relocs| <= |GotRels(elf, secs)|
    ensures forall o: nat {:trigger Times(relocs, o)} :: o + 4 <= |data| ==>
              Times(relocs, o) == if o !in existing && Reached(elf, s.text, secs, o) && UnpackLe(data, o) != 0 then 1 else 0
  {
    hide Reached, AbsAligned, Pools;
    ReadableIs(elf, secs);
    GotNames(elf, s.text, secs);
    var rels := GotRels(elf, secs);
    WalkFold(elf, secs, 0, GotFilter(secs), GotVisitor(elf, s.text, existing), {});
    GotFold(rels, elf, s.text, existing, {});
    var slots := Fold(rels, GotVisitor(elf, s.text, existing), {}).value;
    AscendingIs(slots);
    forall i | 0 <= i < |Ascending(slots)| ensures Ascending(slots)[i] % 4 == 0 {
      assert Ascending(slots)[i] in slots;
    }
    SlotFold(data, Ascending(slots), []);
    var found := SlotRelocs(data, Ascending(slots), []).value;
    SortKeeps(found, |data|);
    relocs := SortByOffset(found);
  }
}
