// The relocation entries that concern the loaded program, read off the ELF file: sections
// of type 9 (SHT_REL) whose target has flag 2 (SHF_ALLOC), entries of eight bytes, types
// 2 (R_ARM_ABS32) and 26 (R_ARM_GOT_BREL).  The lists the two passes work through hold
// exactly these entries.
module ElfSites {
  import opened Prelude
  import opened Bytes
  import opened Elf
  import opened Elf2Bflt

  ghost function WordAt(b: bytes, at: nat): nat
    requires at + 4 <= |b|
  {
    b[at] as int + 0x100 * b[at + 1] as int + 0x1_0000 * b[at + 2] as int + 0x100_0000 * b[at + 3] as int
  }

  // Section k is of type REL and its target is loaded; a target past the section table
  // counts as loaded.
  ghost predicate Relocates(secs: seq<Section>, k: int) {
    0 <= k < |secs| && secs[k].kind == 9 && (secs[k].info < |secs| ==> secs[secs[k].info].flags / 2 % 2 == 1)
  }

  // Entry i of the section lies in the file.
  ghost predicate HasEntry(elf: bytes, s: Section, i: int) {
    s.entsize != 0 && 0 <= i < s.size / s.entsize && s.offset + 8 * i + 8 <= |elf|
  }

  ghost function EntryVa(elf: bytes, s: Section, i: int): nat
    requires HasEntry(elf, s, i)
  {
    WordAt(elf, s.offset + 8 * i)
  }

  ghost function EntryType(elf: bytes, s: Section, i: int): nat
    requires HasEntry(elf, s, i)
  {
    elf[s.offset + 8 * i + 4]
  }

  ghost predicate IsAbs(elf: bytes, secs: seq<Section>, k: int, i: int) {
    Relocates(secs, k) && HasEntry(elf, secs[k], i) && EntryType(elf, secs[k], i) == 2
  }

  ghost predicate IsGot(elf: bytes, secs: seq<Section>, k: int, i: int) {
    Relocates(secs, k) && secs[k].info < |secs| && HasEntry(elf, secs[k], i) && EntryType(elf, secs[k], i) == 26
  }

  // The ABS32 entries that name an address.
  ghost function AbsAt(elf: bytes, secs: seq<Section>, va: nat): set<(int, int)> {
    set k, i | 0 <= k < |secs| && 0 <= i < secs[k].size && IsAbs(elf, secs, k, i) && EntryVa(elf, secs[k], i) == va :: (k, i)
  }

  // The ABS32 entries that name an address below the end of the text.
  ghost function AbsBelow(elf: bytes, secs: seq<Section>, end: nat): set<(int, int)> {
    set k, i | 0 <= k < |secs| && 0 <= i < secs[k].size && IsAbs(elf, secs, k, i) && EntryVa(elf, secs[k], i) < end :: (k, i)
  }

  // Entry i of section k names a literal in the text that holds a GOT offset.
  ghost predicate ReachesSlot(elf: bytes, text: Section, secs: seq<Section>, k: int, i: int, slot: nat) {
    IsGot(elf, secs, k, i) &&
    var at := text.offset + (EntryVa(elf, secs[k], i) - text.addr);
    0 <= at && at + 4 <= |elf| && WordAt(elf, at) == slot
  }

  ghost predicate Reached(elf: bytes, text: Section, secs: seq<Section>, slot: nat) {
    exists k, i :: ReachesSlot(elf, text, secs, k, i, slot)
  }

  // ---- The lists the passes work through -----------------------------------------------

  ghost predicate AllReadable(elf: bytes, secs: seq<Section>, loaded: Section -> bool) {
    forall s :: s in secs && loaded(s) ==> Readable(elf, s)
  }

  // The entries of section k, if it is loaded.
  ghost function ListOf(elf: bytes, secs: seq<Section>, k: nat, loaded: Section -> bool): seq<Rel>
    requires k < |secs| && AllReadable(elf, secs, loaded)
  {
    if loaded(secs[k]) then SectionRels(elf, secs[k], 0) else []
  }

  ghost function Rels(elf: bytes, secs: seq<Section>, k: nat, loaded: Section -> bool): seq<Rel>
    requires AllReadable(elf, secs, loaded)
    decreases |secs| - k
  {
    if k >= |secs| then []
    else ListOf(elf, secs, k, loaded) + Rels(elf, secs, k + 1, loaded)
  }

  ghost function Count(rels: seq<Rel>, p: Rel -> bool): nat {
    if rels == [] then 0 else (if p(rels[0]) then 1 else 0) + Count(rels[1..], p)
  }

  lemma {:induction false} CountAppend(a: seq<Rel>, b: seq<Rel>, p: Rel -> bool)
    ensures Count(a + b, p) == Count(a, p) + Count(b, p)
  {
    if a == [] {
      assert a + b == b;
    } else {
      assert (a + b)[1..] == a[1..] + b;
      CountAppend(a[1..], b, p);
    }
  }

  // Entries first..n of one section that satisfy p.
  ghost function InSection(elf: bytes, offset: nat, k: int, first: nat, n: nat, p: Rel -> bool): set<(int, int)>
    requires offset + 8 * n <= |elf|
  {
    set i | first <= i < n && p(RelAt(elf, offset + 8 * i)) :: (k, i)
  }

  lemma OneMore(elf: bytes, offset: nat, k: int, first: nat, n: nat, p: Rel -> bool)
    requires offset + 8 * n <= |elf| && first < n
    ensures |InSection(elf, offset, k, first, n, p)|
         == (if p(RelAt(elf, offset + 8 * first)) then 1 else 0) + |InSection(elf, offset, k, first + 1, n, p)|
  {
    hide RelAt, InSection;
    var here, rest := InSection(elf, offset, k, first, n, p), InSection(elf, offset, k, first + 1, n, p);
    var t := (k, first as int);
    forall x ensures x in here <==> x in rest || (x == t && p(RelAt(elf, offset + 8 * first))) {
      InSectionIs(elf, offset, k, first, n, p, x);
      InSectionIs(elf, offset, k, first + 1, n, p, x);
    }
    InSectionIs(elf, offset, k, first + 1, n, p, t);
    if p(RelAt(elf, offset + 8 * first)) {
      assert here == rest + {t};
    } else {
      assert here == rest;
    }
  }

  lemma InSectionIs(elf: bytes, offset: nat, k: int, first: nat, n: nat, p: Rel -> bool, x: (int, int))
    requires offset + 8 * n <= |elf|
    ensures x in InSection(elf, offset, k, first, n, p) <==> x.0 == k && first <= x.1 < n && p(RelAt(elf, offset + 8 * x.1))
  {
    hide RelAt;
    assert x == (x.0, x.1);
  }

  lemma {:induction false} CountSection(elf: bytes, s: Section, k: int, first: nat, p: Rel -> bool)
    requires Readable(elf, s) && first <= s.size / s.entsize
    ensures Count(SectionRels(elf, s, first), p) == |InSection(elf, s.offset, k, first, s.size / s.entsize, p)|
    decreases s.size / s.entsize - first
  {
    hide RelAt, InSection;
    if first < s.size / s.entsize {
      CountSection(elf, s, k, first + 1, p);
      assert SectionRels(elf, s, first)[1..] == SectionRels(elf, s, first + 1);
      OneMore(elf, s.offset, k, first, s.size / s.entsize, p);
    } else {
      assert InSection(elf, s.offset, k, first, first, p) == {} by { NothingLeft(elf, s.offset, k, first, p); }
    }
  }

  lemma NothingLeft(elf: bytes, offset: nat, k: int, n: nat, p: Rel -> bool)
    requires offset + 8 * n <= |elf|
    ensures InSection(elf, offset, k, n, n, p) == {}
  {
  }

  // The entries of section k that satisfy p.
  ghost function Here(elf: bytes, secs: seq<Section>, k: nat, loaded: Section -> bool, p: Rel -> bool): set<(int, int)>
    requires k < |secs| && AllReadable(elf, secs, loaded)
  {
    if loaded(secs[k]) then InSection(elf, secs[k].offset, k, 0, secs[k].size / secs[k].entsize, p) else {}
  }

  ghost predicate Listed(elf: bytes, secs: seq<Section>, loaded: Section -> bool, p: Rel -> bool, k: int, i: int)
    requires AllReadable(elf, secs, loaded)
  {
    0 <= k < |secs| && (k, i) in Here(elf, secs, k, loaded, p)
  }

  lemma HereIs(elf: bytes, secs: seq<Section>, k: nat, loaded: Section -> bool, p: Rel -> bool)
    requires k < |secs| && AllReadable(elf, secs, loaded)
    ensures Count(ListOf(elf, secs, k, loaded), p) == |Here(elf, secs, k, loaded, p)|
    ensures forall t :: t in Here(elf, secs, k, loaded, p) ==> t.0 == k
  {
    if loaded(secs[k]) { CountSection(elf, secs[k], k, 0, p); }
  }

  // A list's count is the number of places in the file.
  lemma {:induction false} CountSites(elf: bytes, secs: seq<Section>, first: nat, loaded: Section -> bool, p: Rel -> bool, sites: set<(int, int)>)
    requires AllReadable(elf, secs, loaded) && first <= |secs|
    requires forall t :: t in sites <==> first <= t.0 && Listed(elf, secs, loaded, p, t.0, t.1)
    ensures Count(Rels(elf, secs, first, loaded), p) == |sites|
    decreases |secs| - first
  {
    hide Here, Count, ListOf, AllReadable;
    if first == |secs| {
      assert sites == {};
      CountNothing(p);
    } else {
      var here := Here(elf, secs, first, loaded, p);
      HereIs(elf, secs, first, loaded, p);
      forall t | t in here ensures t in sites { assert t == (t.0, t.1); }
      var rest := sites - here;
      forall t ensures t in rest <==> first + 1 <= t.0 && Listed(elf, secs, loaded, p, t.0, t.1) {
        assert t == (t.0, t.1);
      }
      CountSites(elf, secs, first + 1, loaded, p, rest);
      assert sites == here + rest;
      CountAppend(ListOf(elf, secs, first, loaded), Rels(elf, secs, first + 1, loaded), p);
    }
  }

  lemma CountNothing(p: Rel -> bool)
    ensures Count([], p) == 0
  {
  }

  lemma RelIs(elf: bytes, s: Section, i: int)
    requires HasEntry(elf, s, i)
    ensures RelAt(elf, s.offset + 8 * i) == Rel(EntryVa(elf, s, i), EntryType(elf, s, i))
  {
    var at := s.offset + 8 * i + 4;
    Unweigh(elf[at], elf[at + 1], elf[at + 2], elf[at + 3]);
  }

  lemma EntriesFit(elf: bytes, s: Section, i: int)
    requires Readable(elf, s)
    ensures 0 <= i < s.size / s.entsize <==> HasEntry(elf, s, i)
    ensures s.size / s.entsize <= s.size
  {
    DivideAtMost(s.size, s.entsize);
  }

  lemma DivideAtMost(n: nat, d: nat)
    requires d > 0
    ensures n / d <= n
  {
    var q := n / d;
    assert d * q <= n;
    Multiple(d, q);
  }

  lemma Multiple(d: nat, q: nat)
    requires d > 0
    ensures q <= d * q
  {
    assert d * q == q + (d - 1) * q && (d - 1) * q >= 0;
  }

  function ByVa(va: nat): Rel -> bool { (r: Rel) => r == Rel(va, R_ARM_ABS32) }

  function Below(end: nat): Rel -> bool { (r: Rel) => r.kind == R_ARM_ABS32 && r.va < end }

  function Exactly(r: Rel): Rel -> bool { (x: Rel) => x == r }

  lemma SiteIs(elf: bytes, secs: seq<Section>, loaded: Section -> bool, p: Rel -> bool, k: int, i: int)
    requires AllReadable(elf, secs, loaded)
    ensures Listed(elf, secs, loaded, p, k, i) <==>
              0 <= k < |secs| && loaded(secs[k]) && HasEntry(elf, secs[k], i) && p(Rel(EntryVa(elf, secs[k], i), EntryType(elf, secs[k], i)))
  {
    hide RelAt, Readable, HasEntry, EntryVa, EntryType;
    if 0 <= k < |secs| && loaded(secs[k]) {
      assert secs[k] in secs;
      EntriesFit(elf, secs[k], i);
      if HasEntry(elf, secs[k], i) { RelIs(elf, secs[k], i); }
    }
  }

  // The first pass's list holds every ABS32 entry once.
  lemma AbsListed(elf: bytes, secs: seq<Section>, va: nat)
    requires AllReadable(elf, secs, AbsFilter(secs))
    ensures Count(Rels(elf, secs, 0, AbsFilter(secs)), ByVa(va)) == |AbsAt(elf, secs, va)|
    ensures Count(Rels(elf, secs, 0, AbsFilter(secs)), Below(va)) == |AbsBelow(elf, secs, va)|
  {
    hide Listed, EntryVa, EntryType, HasEntry, Relocates;
    forall t: (int, int)
      ensures t in AbsAt(elf, secs, va) <==> 0 <= t.0 && Listed(elf, secs, AbsFilter(secs), ByVa(va), t.0, t.1)
      ensures t in AbsBelow(elf, secs, va) <==> 0 <= t.0 && Listed(elf, secs, AbsFilter(secs), Below(va), t.0, t.1)
    {
      SiteIs(elf, secs, AbsFilter(secs), ByVa(va), t.0, t.1);
      SiteIs(elf, secs, AbsFilter(secs), Below(va), t.0, t.1);
      AbsFilterIs(secs, t.0);
      SiteBounds(elf, secs, t.0, t.1);
    }
    CountSites(elf, secs, 0, AbsFilter(secs), ByVa(va), AbsAt(elf, secs, va));
    CountSites(elf, secs, 0, AbsFilter(secs), Below(va), AbsBelow(elf, secs, va));
  }

  lemma AbsFilterIs(secs: seq<Section>, k: int)
    ensures Relocates(secs, k) <==> 0 <= k < |secs| && AbsFilter(secs)(secs[k])
  {
  }

  lemma GotFilterIs(secs: seq<Section>, k: int)
    ensures Relocates(secs, k) && secs[k].info < |secs| <==> 0 <= k < |secs| && GotFilter(secs)(secs[k])
  {
  }

  lemma {:induction false} CountMember(rels: seq<Rel>, r: Rel)
    ensures r in rels <==> Count(rels, Exactly(r)) > 0
  {
    if rels != [] {
      assert rels == [rels[0]] + rels[1..];
      CountMember(rels[1..], r);
    }
  }

  ghost function PlacesOf(elf: bytes, secs: seq<Section>, r: Rel): set<(int, int)> {
    set k, i | 0 <= k < |secs| && 0 <= i < secs[k].size && GotFilter(secs)(secs[k]) && HasEntry(elf, secs[k], i)
               && Rel(EntryVa(elf, secs[k], i), EntryType(elf, secs[k], i)) == r :: (k, i)
  }

  // The second pass's list holds exactly the entries of its sections.
  lemma GotListed(elf: bytes, secs: seq<Section>, r: Rel)
    requires AllReadable(elf, secs, GotFilter(secs))
    ensures r in Rels(elf, secs, 0, GotFilter(secs)) <==>
              exists k, i :: 0 <= k < |secs| && GotFilter(secs)(secs[k]) && HasEntry(elf, secs[k], i) && r == Rel(EntryVa(elf, secs[k], i), EntryType(elf, secs[k], i))
  {
    hide Listed, EntryVa, EntryType, HasEntry, GotFilter;
    var places := PlacesOf(elf, secs, r);
    forall t: (int, int) ensures t in places <==> 0 <= t.0 && Listed(elf, secs, GotFilter(secs), Exactly(r), t.0, t.1) {
      SiteIs(elf, secs, GotFilter(secs), Exactly(r), t.0, t.1);
      SiteBounds(elf, secs, t.0, t.1);
    }
    CountSites(elf, secs, 0, GotFilter(secs), Exactly(r), places);
    CountMember(Rels(elf, secs, 0, GotFilter(secs)), r);
    if k, i :| 0 <= k < |secs| && GotFilter(secs)(secs[k]) && HasEntry(elf, secs[k], i) && r == Rel(EntryVa(elf, secs[k], i), EntryType(elf, secs[k], i)) {
      SiteBounds(elf, secs, k, i);
      assert (k, i) in places;
    }
    if places != {} {
      var t :| t in places;
      assert HasEntry(elf, secs[t.0], t.1);
    }
  }

  lemma SiteBounds(elf: bytes, secs: seq<Section>, k: int, i: int)
    ensures Relocates(secs, k) ==> 0 <= k < |secs|
    ensures 0 <= k < |secs| && HasEntry(elf, secs[k], i) ==> 0 <= i < secs[k].size
  {
    if 0 <= k < |secs| && secs[k].entsize != 0 { DivideAtMost(secs[k].size, secs[k].entsize); }
  }
}
