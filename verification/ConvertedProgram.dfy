// The main result about the converter: loading its output at any base is
// relocating the linked image at that base.
module ConvertedProgram {
  import opened Prelude
  import opened Bytes
  import opened Elf
  import opened Elf2Bflt
  import opened FlatLoader
  import opened BfltFile
  import opened ElfLayout
  import opened ElfSites
  import opened MeaningPreservation

  lemma {:induction false} TimesFromIs(relocs: seq<Reloc>, i: nat, size: nat, o: int)
    requires Fits(relocs, size) && size <= 0x400_0000 && i <= |relocs|
    ensures TimesFrom(Entries(relocs), i, o) == Times(relocs[i..], o)
    decreases |relocs| - i
  {
    if i < |relocs| {
      assert relocs[i] in relocs;
      assert Entries(relocs)[i] == relocs[i].offset;
      TimesFromIs(relocs, i + 1, size, o);
      assert relocs[i..][0] == relocs[i] && relocs[i..][1..] == relocs[i + 1..];
    }
  }

  lemma DataWord(text: bytes, data: bytes, bss: nat, o: nat)
    requires o + 4 <= |data|
    ensures UnpackLe(text + data + Zeros(bss), |text| + o) == UnpackLe(data, o)
  {
    var all := text + data + Zeros(bss);
    assert all[|text| + o] == data[o] && all[|text| + o + 1] == data[o + 1];
    assert all[|text| + o + 2] == data[o + 2] && all[|text| + o + 3] == data[o + 3];
  }

  ghost predicate CountsSites(elf: bytes, secs: seq<Section>, s: Sections, relocs: seq<Reloc>)
    requires Linked(elf, secs, s)
  {
    forall o: nat {:trigger Times(relocs, o)} :: s.DataVa() + o + 4 <= s.BssVa() ==> Times(relocs, o) == Multiplicity(elf, secs, s, s.DataVa() + o)
  }

  // The two passes together list every site as often as it is to be relocated.
  lemma BothPasses(elf: bytes, secs: seq<Section>, s: Sections, lay: Layout) returns (relocs: seq<Reloc>)
    requires Linked(elf, secs, s) && AbsBelow(elf, secs, s.DataVa()) == {}
    requires GoodLayout(lay) && lay.dataVa == s.DataVa() && lay.bssVa == s.BssVa()
    requires lay.text + lay.data + Zeros(lay.bssSize) == s.Image(elf)
    ensures exists abs, got ::
              && AbsRelocs(elf, secs, lay) == Ok(abs)
              && GotRelocs(elf, secs, s.text, lay.data, Offsets(abs)) == Ok(got)
              && relocs == SortByOffset(abs + got)
    ensures Fits(relocs, |lay.data|) && |relocs| < WORD && CountsSites(elf, secs, s, relocs) && Sorted(relocs)
  {
    hide AbsRelocs, GotRelocs, Multiplicity, Times, SortByOffset, AbsAt, Reached, UnpackLe;
    var abs := AbsPass(elf, secs, lay);
    var got := GotPass(elf, secs, s, lay.data, Offsets(abs));
    SortKeeps(abs + got, |lay.data|);
    relocs := SortByOffset(abs + got);
    forall o: nat | s.DataVa() + o + 4 <= s.BssVa()
      ensures Times(relocs, o) == Multiplicity(elf, secs, s, s.DataVa() + o)
    {
      TimesAppend(abs, got, o);
      TimesPositive(abs, o);
      DataWord(lay.text, lay.data, lay.bssSize, o);
      SumIs(elf, secs, s, abs, got, lay.data, o);
    }
  }

  lemma SumIs(elf: bytes, secs: seq<Section>, s: Sections, abs: seq<Reloc>, got: seq<Reloc>, data: bytes, o: nat)
    requires Linked(elf, secs, s) && s.DataVa() + o + 4 <= s.BssVa() && o + 4 <= |data|
    requires UnpackLe(data, o) == UnpackLe(s.Image(elf), s.DataVa() + o)
    requires Times(abs, o) == |AbsAt(elf, secs, s.DataVa() + o)|
    requires Times(abs, o) > 0 <==> o in Offsets(abs)
    requires Times(got, o) == if o !in Offsets(abs) && Reached(elf, s.text, secs, o) && UnpackLe(data, o) != 0 then 1 else 0
    ensures Times(abs, o) + Times(got, o) == Multiplicity(elf, secs, s, s.DataVa() + o)
  {
    assert s.DataVa() + o - s.DataVa() == o;
  }

  // The converted file, as the loader parses it.
  lemma ConvertedFile(elf: bytes, secs: seq<Section>, s: Sections) returns (file: bytes, relocs: seq<Reloc>)
    requires Linked(elf, secs, s) && AbsBelow(elf, secs, s.DataVa()) == {}
    ensures Convert(elf, secs) == Ok(file)
    ensures exists dataEnd :: Parse(file) == Some(Flat(s.Image(elf), Entries(relocs), s.DataVa(), dataEnd))
    ensures Fits(relocs, s.BssVa() - s.DataVa()) && CountsSites(elf, secs, s, relocs) && Sorted(relocs)
    ensures HeaderSays(file, 64 + s.DataVa(), 64 + s.BssVa(), 64 + s.BssEnd(), 65536, |relocs|)
  {
    hide Parse, LayOut, AbsRelocs, GotRelocs, SortByOffset, CountsSites, AbsRels, GotRels, AbsAligned, Pools, AbsBelow;
    LayOutIsImage(elf, s);
    var lay := LayOut(elf, s);
    relocs := BothPasses(elf, secs, s, lay);
    assert forall r :: r in relocs ==> r.entry < WORD;
    file := ParseBuilt(lay.text, lay.data, lay.bssSize, relocs, BFLT_DEFAULT_STACK);
  }

  // Each word of the loaded program is the linked word with the base added once
  // per relocation of that word, modulo 2^32; a byte of no relocated word is unchanged.
  lemma LoadConverted(elf: bytes, secs: seq<Section>, s: Sections, base: nat, w: nat, v: nat) returns (file: bytes, mem: bytes)
    requires Linked(elf, secs, s) && AbsBelow(elf, secs, s.DataVa()) == {}
    requires w % 4 == 0 && w <= v < w + 4 && v < s.BssEnd()
    ensures Convert(elf, secs) == Ok(file) && Load(file, base) == Some(mem) && |mem| == s.BssEnd()
    ensures w + 4 <= s.BssEnd() ==>
              UnpackLe(mem, w) == (UnpackLe(s.Image(elf), w) + Repeated(base, Multiplicity(elf, secs, s, w))) % 0x1_0000_0000
    ensures Multiplicity(elf, secs, s, w) == 0 ==> mem[v] == s.Image(elf)[v]
  {
    hide Parse, OldReloc, Convert, HeaderSays, AbsAligned, Pools, RelsReadable, AbsAt, AbsBelow, Reached, Multiplicity, UnpackLe, Sorted;
    var relocs;
    file, relocs := ConvertedFile(elf, secs, s);
    var size := s.BssVa() - s.DataVa();
    mem := LoadFlat(file, s.Image(elf), relocs, s.DataVa(), size, base, w, v);
    SiteCount(elf, secs, s, relocs, size, w);
  }

  lemma LoadFlat(file: bytes, image: bytes, relocs: seq<Reloc>, dataPos: nat, size: nat, base: nat, w: nat, v: nat) returns (mem: bytes)
    requires exists dataEnd :: Parse(file) == Some(Flat(image, Entries(relocs), dataPos, dataEnd))
    requires Fits(relocs, size) && size <= 0x400_0000 && dataPos + size <= |image| && dataPos % 4 == 0
    requires w % 4 == 0 && w <= v < w + 4 && v < |image|
    ensures Load(file, base) == Some(mem) && |mem| == |image|
    ensures w + 4 <= |image| ==> UnpackLe(mem, w) == (UnpackLe(image, w) + Repeated(base, Times(relocs, w - dataPos))) % 0x1_0000_0000
    ensures Times(relocs, w - dataPos) == 0 ==> mem[v] == image[v]
  {
    hide Parse, OldReloc;
    var dataEnd :| Parse(file) == Some(Flat(image, Entries(relocs), dataPos, dataEnd));
    forall i | 0 <= i < |relocs| ensures Entries(relocs)[i] % 4 == 0 && Entries(relocs)[i] + 4 <= size {
      assert relocs[i] in relocs;
    }
    TimesFromIs(relocs, 0, size, w - dataPos);
    assert relocs[0..] == relocs;
    mem := OldRelocReads(image, Entries(relocs), 0, dataPos, size, base, base + dataPos, base + dataEnd, w, v);
  }

  lemma SiteCount(elf: bytes, secs: seq<Section>, s: Sections, relocs: seq<Reloc>, size: nat, w: nat)
    requires Linked(elf, secs, s) && Fits(relocs, size) && size == s.BssVa() - s.DataVa() && CountsSites(elf, secs, s, relocs)
    ensures Times(relocs, w - s.DataVa()) == Multiplicity(elf, secs, s, w)
  {
    if s.DataVa() <= w && w + 4 <= s.BssVa() {
      assert s.DataVa() + (w - s.DataVa()) == w;
      var o: nat := w - s.DataVa();
      assert Times(relocs, o) == Multiplicity(elf, secs, s, s.DataVa() + o);
    } else {
      Outside(relocs, size, w - s.DataVa());
    }
  }

  lemma {:induction false} Outside(relocs: seq<Reloc>, size: nat, o: int)
    requires Fits(relocs, size) && (o < 0 || size < o + 4)
    ensures Times(relocs, o) == 0
  {
    if relocs != [] {
      assert relocs[0] in relocs;
      Outside(relocs[1..], size, o);
    }
  }

  // ---- Direct relocation ----------------------------------------------------

  // The words that hold an address: data words an ABS32 entry names, and
  // non-zero GOT slots the code reaches through a literal pool.
  ghost predicate IsSite(elf: bytes, secs: seq<Section>, s: Sections, w: nat)
    requires Linked(elf, secs, s)
  {
    && s.DataVa() <= w && w + 4 <= s.BssVa()
    && (AbsAt(elf, secs, w) != {}
        || (Reached(elf, s.text, secs, w - s.DataVa()) && UnpackLe(s.Image(elf), w) != 0))
  }

  // The linked image with the base added once to every site.
  ghost function DirectByte(elf: bytes, secs: seq<Section>, s: Sections, base: nat, v: nat): byte
    requires Linked(elf, secs, s) && v < s.BssEnd()
  {
    var w := v - v % 4;
    if IsSite(elf, secs, s, w) then PackLe((UnpackLe(s.Image(elf), w) + base) % 0x1_0000_0000)[v - w] else s.Image(elf)[v]
  }

  ghost function DirectRelocation(elf: bytes, secs: seq<Section>, s: Sections, base: nat): (mem: bytes)
    requires Linked(elf, secs, s)
    ensures |mem| == s.BssEnd()
  {
    seq(s.BssEnd(), v requires 0 <= v < s.BssEnd() => DirectByte(elf, secs, s, base, v))
  }

  // No data word is listed by two ABS32 entries.
  ghost predicate NamedOnce(elf: bytes, secs: seq<Section>, s: Sections)
    requires Linked(elf, secs, s)
  {
    forall w: nat :: s.DataVa() <= w && w + 4 <= s.BssVa() ==> |AbsAt(elf, secs, w)| <= 1
  }

  lemma MultiplicityIsSite(elf: bytes, secs: seq<Section>, s: Sections, w: nat)
    requires Linked(elf, secs, s) && NamedOnce(elf, secs, s)
    ensures Multiplicity(elf, secs, s, w) == if IsSite(elf, secs, s, w) then 1 else 0
  {
  }

  lemma LoadedByte(elf: bytes, secs: seq<Section>, s: Sections, base: nat, v: nat) returns (file: bytes, mem: bytes)
    requires Linked(elf, secs, s) && AbsBelow(elf, secs, s.DataVa()) == {} && NamedOnce(elf, secs, s)
    requires v < s.BssEnd()
    ensures Convert(elf, secs) == Ok(file) && Load(file, base) == Some(mem) && |mem| == s.BssEnd()
    ensures mem[v] == DirectByte(elf, secs, s, base, v)
  {
    hide Load, Convert, Multiplicity, IsSite, UnpackLe, PackLe;
    var w := v - v % 4;
    file, mem := LoadConverted(elf, secs, s, base, w, v);
    MultiplicityIsSite(elf, secs, s, w);
    if IsSite(elf, secs, s, w) {
      assert w + 4 <= s.BssEnd() by { SiteFits(elf, secs, s, w); }
      OneRepeat(base);
      WordRoundTrip(0, mem, w);
      assert mem[v] == mem[w..w + 4][v - w];
    }
  }

  lemma SiteFits(elf: bytes, secs: seq<Section>, s: Sections, w: nat)
    requires Linked(elf, secs, s) && IsSite(elf, secs, s, w)
    ensures w + 4 <= s.BssEnd()
  {
  }

  lemma OneRepeat(base: nat)
    ensures Repeated(base, 1) == base
  {
    assert Repeated(base, 0) == 0;
  }

  // Loading the converted file at a base is relocating the linked image at that base,
  // for every base, exactly when no data word is listed twice.
  lemma MeaningPreserved(elf: bytes, secs: seq<Section>, s: Sections)
    requires Linked(elf, secs, s) && AbsBelow(elf, secs, s.DataVa()) == {}
    ensures Convert(elf, secs).Ok?
    ensures NamedOnce(elf, secs, s)
            <==> forall base: nat :: Load(Convert(elf, secs).value, base) == Some(DirectRelocation(elf, secs, s, base))
  {
    hide Load, Convert, DirectByte, AbsRels, AbsAt;
    var _, _ := ConvertedFile(elf, secs, s);
    if NamedOnce(elf, secs, s) {
      forall base: nat ensures Load(Convert(elf, secs).value, base) == Some(DirectRelocation(elf, secs, s, base)) {
        LoadedDirectly(elf, secs, s, base);
      }
    } else {
      var w: nat :| s.DataVa() <= w && w + 4 <= s.BssVa() && |AbsAt(elf, secs, w)| > 1;
      TwiceNamed(elf, secs, s, w);
    }
  }

  lemma LoadedDirectly(elf: bytes, secs: seq<Section>, s: Sections, base: nat)
    requires Linked(elf, secs, s) && AbsBelow(elf, secs, s.DataVa()) == {} && NamedOnce(elf, secs, s)
    ensures Convert(elf, secs).Ok?
    ensures Load(Convert(elf, secs).value, base) == Some(DirectRelocation(elf, secs, s, base))
  {
    hide Load, Convert, DirectByte;
    var _, relocs := ConvertedFile(elf, secs, s);
    var file := Convert(elf, secs).value;
    if s.BssEnd() == 0 {
      LoadEmpty(file, s.Image(elf), relocs, s.DataVa(), s.BssVa() - s.DataVa(), base);
    } else {
      var _, mem := LoadedByte(elf, secs, s, base, 0);
      forall v | 0 <= v < s.BssEnd() ensures mem[v] == DirectByte(elf, secs, s, base, v) {
        var _, again := LoadedByte(elf, secs, s, base, v);
      }
      assert mem == DirectRelocation(elf, secs, s, base);
    }
  }

  lemma {:induction false} CountBounded(rels: seq<Rel>, w: nat)
    ensures AbsCount(rels, w) <= |rels|
  {
    if rels != [] { CountBounded(rels[1..], w); }
  }

  lemma AtBounded(elf: bytes, secs: seq<Section>, w: nat)
    requires RelsReadable(elf, secs) && AbsAligned(elf, secs)
    ensures |AbsAt(elf, secs, w)| <= |AbsRels(elf, secs)|
    ensures AbsAt(elf, secs, w) != {} ==> w % 4 == 0
  {
    AbsCounted(elf, secs, w);
    CountBounded(AbsRels(elf, secs), w);
    if t :| t in AbsAt(elf, secs, w) { assert IsAbs(elf, secs, t.0, t.1); }
  }

  lemma {:induction false} RepeatedOne(n: nat)
    ensures Repeated(1, n) == n
  {
    if n > 0 { RepeatedOne(n - 1); }
  }

  lemma DirectWord(elf: bytes, secs: seq<Section>, s: Sections, base: nat, w: nat)
    requires Linked(elf, secs, s) && IsSite(elf, secs, s, w) && w % 4 == 0 && w + 4 <= s.BssEnd()
    ensures UnpackLe(DirectRelocation(elf, secs, s, base), w) == (UnpackLe(s.Image(elf), w) + base) % 0x1_0000_0000
  {
    hide IsSite, UnpackLe, PackLe, RelsReadable, AbsAligned, Pools, FindSections;
    var mem, x := DirectRelocation(elf, secs, s, base), (UnpackLe(s.Image(elf), w) + base) % 0x1_0000_0000;
    forall i | 0 <= i < 4 ensures mem[w + i] == PackLe(x)[i] {
      assert mem[w + i] == DirectByte(elf, secs, s, base, w + i);
    }
    SameWord(mem, w, PackLe(x));
    WordRoundTrip(x, mem, w);
  }

  lemma SameWord(b: bytes, w: nat, p: bytes)
    requires w + 4 <= |b| && |p| == 4 && forall i :: 0 <= i < 4 ==> b[w + i] == p[i]
    ensures UnpackLe(b, w) == UnpackLe(p, 0)
  {
    assert b[w + 0] == p[0] && b[w + 1] == p[1] && b[w + 2] == p[2] && b[w + 3] == p[3];
  }

  // A data word listed twice or more gets the base as often: wrong at base 1.
  lemma TwiceNamed(elf: bytes, secs: seq<Section>, s: Sections, w: nat)
    requires Linked(elf, secs, s) && AbsBelow(elf, secs, s.DataVa()) == {}
    requires s.DataVa() <= w && w + 4 <= s.BssVa() && |AbsAt(elf, secs, w)| > 1
    ensures Convert(elf, secs).Ok? && Load(Convert(elf, secs).value, 1) != Some(DirectRelocation(elf, secs, s, 1))
  {
    hide Load, Convert, DirectRelocation, UnpackLe, AbsRels, AbsAt;
    var n := |AbsAt(elf, secs, w)|;
    AtBounded(elf, secs, w);
    assert w % 4 == 0;
    var file, mem := LoadConverted(elf, secs, s, 1, w, w);
    RepeatedOne(n);
    DirectWord(elf, secs, s, 1, w);
    OffByMore(UnpackLe(s.Image(elf), w), n);
  }

  lemma OffByMore(x: nat, n: nat)
    requires 1 < n < 0x1_0000_0000
    ensures (x + n) % 0x1_0000_0000 != (x + 1) % 0x1_0000_0000
  {
  }

  lemma LoadEmpty(file: bytes, image: bytes, relocs: seq<Reloc>, dataPos: nat, size: nat, base: nat)
    requires Fits(relocs, size) && image == [] && dataPos + size == 0
    ensures (exists dataEnd :: Parse(file) == Some(Flat(image, Entries(relocs), dataPos, dataEnd))) ==> Load(file, base) == Some([])
  {
    hide Fits;
    if relocs != [] { RelocNeedsRoom(relocs, size); }
  }

  lemma RelocNeedsRoom(relocs: seq<Reloc>, size: nat)
    requires Fits(relocs, size) && relocs != []
    ensures size >= 4
  {
    assert relocs[0] in relocs;
  }
}
