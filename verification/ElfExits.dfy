// What the converter passes over and where it stops, on any input at all.
module ElfExits {
  import opened Prelude
  import opened Bytes
  import opened Elf
  import opened Elf2Bflt
  import opened ElfSites

  // ---- Sections -------------------------------------------------------------------------

  ghost predicate FirstNamed(secs: seq<Section>, name: string, k: int) {
    0 <= k < |secs| && secs[k].name == name && forall j :: 0 <= j < k ==> secs[j].name != name
  }

  lemma {:induction false} FoundFirst(secs: seq<Section>, name: string)
    ensures match FindSection(secs, name)
      case None => forall k :: 0 <= k < |secs| ==> secs[k].name != name
      case Some(s) => exists k :: FirstNamed(secs, name, k) && secs[k] == s
  {
    if secs != [] {
      if secs[0].name == name {
        assert FirstNamed(secs, name, 0);
      } else {
        FoundFirst(secs[1..], name);
        if FindSection(secs[1..], name).Some? {
          var k :| FirstNamed(secs[1..], name, k) && secs[1..][k] == FindSection(secs[1..], name).value;
          forall j | 0 <= j < k + 1 ensures secs[j].name != name { if j > 0 { assert secs[1..][j - 1].name != name; } }
          assert FirstNamed(secs, name, k + 1);
        } else {
          forall k | 0 <= k < |secs| ensures secs[k].name != name { if k > 0 { assert secs[1..][k - 1] == secs[k]; } }
        }
      }
    }
  }

  // The first section of the name, if there is one.
  ghost predicate IsNamed(secs: seq<Section>, name: string, s: Option<Section>) {
    if s.Some? then exists k :: FirstNamed(secs, name, k) && secs[k] == s.value
    else forall k :: 0 <= k < |secs| ==> secs[k].name != name
  }

  // ---- Where the loops stop ----------------------------------------------------------------

  // Why the loops stop at entry i of section k, if they do; a section whose entry size
  // is 0 stops them at its first.
  ghost function Fault(elf: bytes, secs: seq<Section>, loaded: Section -> bool, why: Rel -> Option<Error>, k: int, i: int): Option<Error>
    requires 0 <= k < |secs| && 0 <= i
  {
    if !loaded(secs[k]) then None else EntryFault(elf, secs[k], why, i)
  }

  ghost function EntryFault(elf: bytes, s: Section, why: Rel -> Option<Error>, i: int): Option<Error>
    requires 0 <= i
  {
    if s.entsize == 0 then (if i == 0 then Some(ZeroDivision) else None)
    else if i >= s.size / s.entsize then None
    else if s.offset + 8 * i + 8 > |elf| then Some(StructError)
    else why(RelAt(elf, s.offset + 8 * i))
  }

  ghost predicate Explains<A(!new)>(visit: (Rel, A) -> Result<A>, why: Rel -> Option<Error>) {
    forall r, a :: if why(r).Some? then visit(r, a) == Err(why(r).value) else visit(r, a).Ok?
  }

  // The first fault of a section from entry i on.
  ghost predicate StopsEntries(elf: bytes, s: Section, why: Rel -> Option<Error>, i: int, m: int, e: Error)
    requires 0 <= i
  {
    i <= m && EntryFault(elf, s, why, m) == Some(e) && forall j :: i <= j < m ==> EntryFault(elf, s, why, j) == None
  }

  lemma {:induction false} EntriesStop<A(!new)>(elf: bytes, s: Section, i: nat, visit: (Rel, A) -> Result<A>, why: Rel -> Option<Error>, acc: A)
    returns (m: int)
    requires s.entsize != 0 && Explains(visit, why)
    ensures match WalkEntries(elf, s, i, s.size / s.entsize, visit, acc)
      case Err(e) => StopsEntries(elf, s, why, i, m, e)
      case Ok(_) => forall j :: i <= j ==> EntryFault(elf, s, why, j) == None
    decreases s.size / s.entsize - i
  {
    hide RelAt;
    m := i;
    if i < s.size / s.entsize && s.offset + 8 * i + 8 <= |elf| {
      var r := RelAt(elf, s.offset + 8 * i);
      if visit(r, acc).Ok? { m := EntriesStop(elf, s, i + 1, visit, why, visit(r, acc).value); }
    }
  }

  lemma SectionStops<A(!new)>(elf: bytes, s: Section, visit: (Rel, A) -> Result<A>, why: Rel -> Option<Error>, acc: A) returns (m: int)
    requires Explains(visit, why)
    ensures match WalkSection(elf, s, visit, acc)
      case Err(e) => StopsEntries(elf, s, why, 0, m, e)
      case Ok(_) => forall j :: 0 <= j ==> EntryFault(elf, s, why, j) == None
  {
    m := 0;
    if s.entsize != 0 { m := EntriesStop(elf, s, 0, visit, why, acc); }
  }

  // The first fault in file order, from section `first` on.
  ghost predicate Stops(elf: bytes, secs: seq<Section>, loaded: Section -> bool, why: Rel -> Option<Error>, first: nat, k: int, i: int, e: Error) {
    && first <= k < |secs| && 0 <= i && Fault(elf, secs, loaded, why, k, i) == Some(e)
    && forall j, m :: first <= j <= k && 0 <= m && (j < k || m < i) ==> Fault(elf, secs, loaded, why, j, m) == None
  }

  lemma {:induction false} WalkStops<A(!new)>(elf: bytes, secs: seq<Section>, first: nat, loaded: Section -> bool,
                                              visit: (Rel, A) -> Result<A>, why: Rel -> Option<Error>, acc: A) returns (k: int, i: int)
    requires Explains(visit, why)
    ensures match WalkSections(elf, secs, first, loaded, visit, acc)
      case Err(e) => Stops(elf, secs, loaded, why, first, k, i, e)
      case Ok(_) => forall j, m :: first <= j < |secs| && 0 <= m ==> Fault(elf, secs, loaded, why, j, m) == None
    decreases |secs| - first
  {
    hide EntryFault, WalkSection;
    k, i := first, 0;
    if first < |secs| {
      if !loaded(secs[first]) {
        k, i := WalkStops(elf, secs, first + 1, loaded, visit, why, acc);
      } else {
        i := SectionStops(elf, secs[first], visit, why, acc);
        if WalkSection(elf, secs[first], visit, acc).Ok? {
          k, i := WalkStops(elf, secs, first + 1, loaded, visit, why, WalkSection(elf, secs[first], visit, acc).value);
        }
      }
    }
  }

  // ---- The faults, in the terms of the file ---------------------------------------------------

  // An entry the first pass refuses.
  ghost function AbsFault(elf: bytes, secs: seq<Section>, lay: Layout, k: int, i: int): Option<Error> {
    if !Relocates(secs, k) || i < 0 then None
    else if secs[k].entsize == 0 then (if i == 0 then Some(ZeroDivision) else None)
    else if i >= secs[k].size / secs[k].entsize then None
    else if !HasEntry(elf, secs[k], i) then Some(StructError)
    else
      var va := EntryVa(elf, secs[k], i);
      if EntryType(elf, secs[k], i) != 2 || va < lay.textEnd || va < lay.dataVa || lay.bssVa <= va then None
      else if lay.dataVa + |lay.data| < va + 4 then Some(StructError)
      else if lay.dataVa + 0x400_0000 <= va then Some(OffsetLimit)
      else None
  }

  // An entry the second pass refuses: its literal is not in the file, where a position
  // before the file's beginning counts from its end.
  ghost function GotFault(elf: bytes, secs: seq<Section>, text: Section, k: int, i: int): Option<Error> {
    if !Relocates(secs, k) || secs[k].info >= |secs| || i < 0 then None
    else if secs[k].entsize == 0 then (if i == 0 then Some(ZeroDivision) else None)
    else if i >= secs[k].size / secs[k].entsize then None
    else if !HasEntry(elf, secs[k], i) then Some(StructError)
    else
      var at := text.offset + (EntryVa(elf, secs[k], i) - text.addr);
      if EntryType(elf, secs[k], i) != 26 || 0 <= at <= |elf| - 4 || -|elf| <= at <= -4 then None
      else Some(StructError)
  }

  // Entry i of section k is the first with a fault, in file order.
  ghost predicate First(fault: (int, int) -> Option<Error>, k: int, i: int, e: Error) {
    && 0 <= k && 0 <= i && fault(k, i) == Some(e)
    && forall j, m :: 0 <= j && 0 <= m && (j < k || (j == k && m < i)) ==> fault(j, m) == None
  }

  ghost function AbsFaults(elf: bytes, secs: seq<Section>, lay: Layout): (int, int) -> Option<Error> {
    (k, i) => AbsFault(elf, secs, lay, k, i)
  }

  ghost function GotFaults(elf: bytes, secs: seq<Section>, text: Section): (int, int) -> Option<Error> {
    (k, i) => GotFault(elf, secs, text, k, i)
  }

  ghost function AbsWhy(lay: Layout): Rel -> Option<Error> {
    (r: Rel) => match VisitAbs(lay, r, AbsScan(0, [])) case Err(e) => Some(e) case Ok(_) => None
  }

  ghost function GotWhy(elf: bytes, text: Section): Rel -> Option<Error> {
    (r: Rel) => match VisitGot(elf, text, {}, r, {}) case Err(e) => Some(e) case Ok(_) => None
  }

  lemma AbsFaultIs(elf: bytes, secs: seq<Section>, lay: Layout, k: int, i: int)
    requires 0 <= k < |secs| && 0 <= i
    ensures Fault(elf, secs, AbsFilter(secs), AbsWhy(lay), k, i) == AbsFault(elf, secs, lay, k, i)
  {
    hide RelAt, EntryVa, EntryType;
    AbsFilterIs(secs, k);
    if HasEntry(elf, secs[k], i) { RelIs(elf, secs[k], i); }
  }

  lemma GotFaultIs(elf: bytes, secs: seq<Section>, text: Section, k: int, i: int)
    requires 0 <= k < |secs| && 0 <= i
    ensures Fault(elf, secs, GotFilter(secs), GotWhy(elf, text), k, i) == GotFault(elf, secs, text, k, i)
  {
    hide RelAt, EntryVa, EntryType;
    GotFilterIs(secs, k);
    if HasEntry(elf, secs[k], i) { RelIs(elf, secs[k], i); }
  }

  lemma OnlyFirst(fault: (int, int) -> Option<Error>, k: int, i: int, e: Error, j: int, m: int, d: Error)
    requires First(fault, k, i, e) && First(fault, j, m, d)
    ensures d == e
  {
  }

  // The first pass stops at the first faulty entry with its error, and only there; without
  // one it fails for text relocations alone.
  lemma AbsExits(elf: bytes, secs: seq<Section>, lay: Layout)
    ensures forall e: Error :: !e.TextRelocations? ==> (AbsRelocs(elf, secs, lay) == Err(e) <==> exists k, i :: First(AbsFaults(elf, secs, lay), k, i, e))
  {
    hide Fault, AbsFault, VisitAbs, WalkSections;
    forall k, i | 0 <= k < |secs| && 0 <= i
      ensures Fault(elf, secs, AbsFilter(secs), AbsWhy(lay), k, i) == AbsFaults(elf, secs, lay)(k, i)
    {
      AbsFaultIs(elf, secs, lay, k, i);
    }
    forall k, i | |secs| <= k ensures AbsFaults(elf, secs, lay)(k, i) == None { AbsFaultOutside(elf, secs, lay, k, i); }
    AbsExplained(lay);
    var k, i := WalkStops(elf, secs, 0, AbsFilter(secs), AbsVisitor(lay), AbsWhy(lay), AbsScan(0, []));
    match WalkSections(elf, secs, 0, AbsFilter(secs), AbsVisitor(lay), AbsScan(0, []))
    case Ok(_) =>
    case Err(e) =>
      assert First(AbsFaults(elf, secs, lay), k, i, e);
      AbsFaultKinds(elf, secs, lay, k, i);
      forall j, m, d: Error | First(AbsFaults(elf, secs, lay), j, m, d) ensures d == e {
        OnlyFirst(AbsFaults(elf, secs, lay), k, i, e, j, m, d);
      }
  }

  lemma AbsFaultKinds(elf: bytes, secs: seq<Section>, lay: Layout, k: int, i: int)
    ensures AbsFault(elf, secs, lay, k, i) in {None, Some(ZeroDivision), Some(StructError), Some(OffsetLimit)}
  {
    hide EntryVa, EntryType, HasEntry, Relocates;
  }

  lemma AbsFaultOutside(elf: bytes, secs: seq<Section>, lay: Layout, k: int, i: int)
    requires |secs| <= k
    ensures AbsFault(elf, secs, lay, k, i) == None
  {
  }

  lemma AbsExplained(lay: Layout)
    ensures Explains(AbsVisitor(lay), AbsWhy(lay))
  {
  }

  lemma GotExplained(elf: bytes, text: Section, existing: set<nat>)
    ensures Explains(GotVisitor(elf, text, existing), GotWhy(elf, text))
  {
    hide UnpackFrom;
  }

  // The second pass stops in its loops at the first faulty entry with its error; without one
  // only an offset past 26 bits can stop it.
  lemma GotExits(elf: bytes, secs: seq<Section>, text: Section, data: bytes, existing: set<nat>)
    ensures forall k, i, e :: First(GotFaults(elf, secs, text), k, i, e) ==> GotRelocs(elf, secs, text, data, existing) == Err(e)
    ensures (forall k, i, e :: !First(GotFaults(elf, secs, text), k, i, e)) && |data| < 0x400_0004 ==> GotRelocs(elf, secs, text, data, existing).Ok?
  {
    hide Fault, GotFault, VisitGot, WalkSections;
    forall k, i | 0 <= k < |secs| && 0 <= i
      ensures Fault(elf, secs, GotFilter(secs), GotWhy(elf, text), k, i) == GotFaults(elf, secs, text)(k, i)
    {
      GotFaultIs(elf, secs, text, k, i);
    }
    forall k, i | |secs| <= k ensures GotFaults(elf, secs, text)(k, i) == None { GotFaultOutside(elf, secs, text, k, i); }
    GotExplained(elf, text, existing);
    var k, i := WalkStops(elf, secs, 0, GotFilter(secs), GotVisitor(elf, text, existing), GotWhy(elf, text), {});
    match WalkSections(elf, secs, 0, GotFilter(secs), GotVisitor(elf, text, existing), {})
    case Ok(slots) =>
      if |data| < 0x400_0004 { SlotsTaken(data, Ascending(slots), []); }
    case Err(e) =>
      assert First(GotFaults(elf, secs, text), k, i, e);
      forall j, m, d: Error | First(GotFaults(elf, secs, text), j, m, d) ensures d == e {
        OnlyFirst(GotFaults(elf, secs, text), k, i, e, j, m, d);
      }
  }

  lemma GotFaultOutside(elf: bytes, secs: seq<Section>, text: Section, k: int, i: int)
    requires |secs| <= k
    ensures GotFault(elf, secs, text, k, i) == None
  {
  }

  lemma {:induction false} SlotsTaken(data: bytes, slots: seq<nat>, acc: seq<Reloc>)
    requires |data| < 0x400_0004
    ensures SlotRelocs(data, slots, acc).Ok?
  {
    if slots != [] { SlotsTaken(data, slots[1..], VisitSlot(data, slots[0], acc).value); }
  }

  // Conversion needs a text section, and works on the first section of each of five names.
  lemma SectionsFound(elf: bytes, secs: seq<Section>)
    ensures match FindSections(secs)
      case None => IsNamed(secs, ".text", None) && Convert(elf, secs) == Err(NoTextSection)
      case Some(s) => IsNamed(secs, ".text", Some(s.text)) && IsNamed(secs, ".rodata", s.rodata) && IsNamed(secs, ".data", s.data)
                      && IsNamed(secs, ".got", s.got) && IsNamed(secs, ".bss", s.bss)
  {
    FoundFirst(secs, ".text");
    FoundFirst(secs, ".rodata");
    FoundFirst(secs, ".data");
    FoundFirst(secs, ".got");
    FoundFirst(secs, ".bss");
  }

  // ---- Sections that are not loaded ------------------------------------------------------------

  ghost predicate SameButKind(a: Option<Section>, b: Option<Section>) {
    match (a, b)
    case (None, None) => true
    case (Some(x), Some(y)) => x.(kind := 0) == y.(kind := 0)
    case _ => false
  }

  lemma {:induction false} FindSame(a: seq<Section>, b: seq<Section>, name: string)
    requires |a| == |b| && forall i :: 0 <= i < |a| ==> SameButKind(Some(a[i]), Some(b[i]))
    ensures SameButKind(FindSection(a, name), FindSection(b, name))
  {
    if a != [] {
      assert SameButKind(Some(a[0]), Some(b[0]));
      forall i | 0 <= i < |a| - 1 ensures SameButKind(Some(a[1..][i]), Some(b[1..][i])) { assert SameButKind(Some(a[i + 1]), Some(b[i + 1])); }
      FindSame(a[1..], b[1..], name);
    }
  }

  ghost predicate SameSections(a: Sections, b: Sections) {
    && SameButKind(Some(a.text), Some(b.text)) && SameButKind(a.rodata, b.rodata) && SameButKind(a.data, b.data)
    && SameButKind(a.got, b.got) && SameButKind(a.bss, b.bss)
  }

  lemma PartSame(elf: bytes, dataVa: nat, data: bytes, a: Section, b: Section)
    requires SameButKind(Some(a), Some(b))
    ensures Slice(elf, a) == Slice(elf, b) && a.End() == b.End() && AppendSection(elf, data, dataVa, a) == AppendSection(elf, data, dataVa, b)
  {
  }

  lemma TextSame(elf: bytes, a: Sections, b: Sections)
    requires SameSections(a, b)
    ensures TextBytes(elf, a) == TextBytes(elf, b)
  {
    hide Slice;
    PartSame(elf, 0, [], a.text, b.text);
    if a.rodata.Some? { PartSame(elf, 0, [], a.rodata.value, b.rodata.value); }
  }

  lemma PartsSame(a: Sections, b: Sections)
    requires SameSections(a, b)
    ensures |DataSections(a)| == |DataSections(b)|
    ensures forall i :: 0 <= i < |DataSections(a)| ==> SameButKind(Some(DataSections(a)[i]), Some(DataSections(b)[i]))
  {
  }

  lemma LayOutSame(elf: bytes, a: Sections, b: Sections)
    requires SameSections(a, b)
    ensures LayOut(elf, a) == LayOut(elf, b)
  {
    hide TextBytes, DataBytes, DataSections;
    TextSame(elf, a, b);
    PartsSame(a, b);
    DataSame(elf, DataStart(a, a.text.addr + |TextBytes(elf, a)|), DataSections(a), DataSections(b));
  }

  lemma {:induction false} DataSame(elf: bytes, dataVa: nat, p: seq<Section>, q: seq<Section>)
    requires |p| == |q| && forall i :: 0 <= i < |p| ==> SameButKind(Some(p[i]), Some(q[i]))
    ensures DataBytes(elf, dataVa, p) == DataBytes(elf, dataVa, q)
  {
    hide AppendSection, SameButKind;
    if p != [] {
      var n := |p| - 1;
      DataSame(elf, dataVa, p[..n], q[..n]);
      PartSame(elf, dataVa, DataBytes(elf, dataVa, p[..n]), p[n], q[n]);
    }
  }

  lemma {:induction false} SameEntries<A(!new)>(elf: bytes, s: Section, i: nat, n: nat, v: (Rel, A) -> Result<A>, w: (Rel, A) -> Result<A>, acc: A)
    requires forall r, a :: v(r, a) == w(r, a)
    ensures WalkEntries(elf, s, i, n, v, acc) == WalkEntries(elf, s, i, n, w, acc)
    decreases n - i
  {
    if i < n && s.offset + 8 * i + 8 <= |elf| {
      var r := RelAt(elf, s.offset + 8 * i);
      if v(r, acc).Ok? { SameEntries(elf, s, i + 1, n, v, w, v(r, acc).value); }
    }
  }

  lemma {:induction false} SameWalk<A(!new)>(elf: bytes, a: seq<Section>, b: seq<Section>, k: nat, la: Section -> bool, lb: Section -> bool,
                                       v: (Rel, A) -> Result<A>, w: (Rel, A) -> Result<A>, acc: A)
    requires |a| == |b| && forall i :: 0 <= i < |a| ==> (la(a[i]) <==> lb(b[i])) && (la(a[i]) ==> a[i] == b[i])
    requires forall r, x :: v(r, x) == w(r, x)
    ensures WalkSections(elf, a, k, la, v, acc) == WalkSections(elf, b, k, lb, w, acc)
    decreases |a| - k
  {
    if k < |a| {
      if !la(a[k]) {
        SameWalk(elf, a, b, k + 1, la, lb, v, w, acc);
      } else {
        if a[k].entsize != 0 { SameEntries(elf, a[k], 0, a[k].size / a[k].entsize, v, w, acc); }
        match WalkSection(elf, a[k], v, acc)
        case Err(_) =>
        case Ok(next) => SameWalk(elf, a, b, k + 1, la, lb, v, w, next);
      }
    }
  }

  // A relocation section whose target is not loaded, such as one for debug information,
  // might as well not be one.
  lemma UnloadedIgnored(elf: bytes, secs: seq<Section>, k: nat)
    requires k < |secs| && secs[k].kind == 9 && secs[k].info < |secs| && secs[secs[k].info].flags / 2 % 2 == 0
    ensures Convert(elf, secs[k := secs[k].(kind := 0)]) == Convert(elf, secs)
  {
    hide WalkSections, LayOut, BuildBflt, VisitAbs, VisitGot, SortByOffset, Ascending, SlotRelocs;
    var other := secs[k := secs[k].(kind := 0)];
    FindSame(other, secs, ".text");
    FindSame(other, secs, ".rodata");
    FindSame(other, secs, ".data");
    FindSame(other, secs, ".got");
    FindSame(other, secs, ".bss");
    if FindSections(secs).Some? {
      var s, t := FindSections(secs).value, FindSections(other).value;
      LayOutSame(elf, t, s);
      FiltersAgree(secs, k, other);
      var lay := LayOut(elf, s);
      SameWalk(elf, other, secs, 0, AbsFilter(other), AbsFilter(secs), AbsVisitor(lay), AbsVisitor(lay), AbsScan(0, []));
      assert AbsRelocs(elf, other, lay) == AbsRelocs(elf, secs, lay);
      if AbsRelocs(elf, secs, lay).Ok? {
        var existing := Offsets(AbsRelocs(elf, secs, lay).value);
        VisitorsAgree(elf, t.text, s.text, existing);
        SameWalk(elf, other, secs, 0, GotFilter(other), GotFilter(secs), GotVisitor(elf, t.text, existing), GotVisitor(elf, s.text, existing), {});
      }
    }
  }

  lemma FiltersAgree(secs: seq<Section>, k: nat, other: seq<Section>)
    requires k < |secs| && secs[k].kind == 9 && secs[k].info < |secs| && secs[secs[k].info].flags / 2 % 2 == 0
    requires other == secs[k := secs[k].(kind := 0)]
    ensures forall i :: 0 <= i < |secs| ==> (AbsFilter(other)(other[i]) <==> AbsFilter(secs)(secs[i]))
                                            && (AbsFilter(other)(other[i]) ==> other[i] == secs[i])
    ensures forall i :: 0 <= i < |secs| ==> (GotFilter(other)(other[i]) <==> GotFilter(secs)(secs[i]))
                                            && (GotFilter(other)(other[i]) ==> other[i] == secs[i])
  {
    assert forall i :: 0 <= i < |secs| ==> other[i].flags == secs[i].flags && other[i].info == secs[i].info;
  }

  lemma VisitorsAgree(elf: bytes, a: Section, b: Section, existing: set<nat>)
    requires SameButKind(Some(a), Some(b))
    ensures forall r, x :: GotVisitor(elf, a, existing)(r, x) == GotVisitor(elf, b, existing)(r, x)
  {
    hide UnpackFrom;
  }
}
