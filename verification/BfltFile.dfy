// Reading back the file the converter writes.
module BfltFile {
  import opened Prelude
  import opened Bytes
  import opened Elf
  import opened Elf2Bflt
  import opened FlatLoader

  lemma {:induction false} TableAt(relocs: seq<Reloc>, i: nat)
    requires (forall r :: r in relocs ==> r.entry < WORD) && i < |relocs|
    ensures Table(relocs)[4 * i..4 * i + 4] == PackBe(relocs[i].entry)
  {
    var n := |relocs| - 1;
    if i < n {
      TableAt(relocs[..n], i);
      assert Table(relocs)[4 * i..4 * i + 4] == Table(relocs[..n])[4 * i..4 * i + 4];
    }
  }

  ghost function Entries(relocs: seq<Reloc>): (e: seq<nat>)
    ensures |e| == |relocs| && forall i :: 0 <= i < |e| ==> e[i] == relocs[i].entry
  {
    seq(|relocs|, i requires 0 <= i < |relocs| => relocs[i].entry)
  }

  // Header word k of a file that starts with the nine header words.
  lemma HeaderWord(words: seq<bytes>, k: nat, file: bytes)
    requires k < |words| && (forall i :: 0 <= i < |words| ==> |words[i]| == 4)
    requires Join(words) <= file
    ensures |file| >= 4 * k + 4 && file[4 * k..4 * k + 4] == words[k]
    decreases |words|
  {
    JoinLength(words);
    if k > 0 {
      HeaderWord(words[1..], k - 1, file[4..]);
      assert file[4..][4 * (k - 1)..4 * (k - 1) + 4] == file[4 * k..4 * k + 4];
    }
  }

  lemma {:induction false} JoinLength(words: seq<bytes>)
    requires forall i :: 0 <= i < |words| ==> |words[i]| == 4
    ensures |Join(words)| == 4 * |words|
  {
    if words != [] { JoinLength(words[1..]); }
  }

  // The parts of a built file, wherever the loader looks for them.
  lemma BuiltParts(text: bytes, data: bytes, bssSize: nat, relocs: seq<Reloc>, stack: nat) returns (file: bytes)
    requires BuildBflt(text, data, bssSize, relocs, stack).Ok?
    ensures BuildBflt(text, data, bssSize, relocs, stack) == Ok(file)
    ensures |text| + |data| + bssSize + 64 < WORD && |relocs| < WORD && stack < WORD && forall r :: r in relocs ==> r.entry < WORD
    ensures |file| == 64 + |text| + |data| + 4 * |relocs|
    ensures Join(HeaderWords(64 + |text|, 64 + |text| + |data|, 64 + |text| + |data| + bssSize, stack, |relocs|)) <= file
    ensures forall i :: 40 <= i < 64 ==> file[i] == 0
    ensures file[64..64 + |text| + |data|] == text + data
    ensures file[64 + |text| + |data|..] == Table(relocs)
  {
    file := BuildBflt(text, data, bssSize, relocs, stack).value;
    var words := HeaderWords(64 + |text|, 64 + |text| + |data|, 64 + |text| + |data| + bssSize, stack, |relocs|);
    JoinLength(words);
    var header := PadTo(Join(words), BFLT_HEADER_SIZE);
    JoinFour(header, text, data, Table(relocs));
    FourSlices(header, text, data, Table(relocs), file);
    assert forall i :: 40 <= i < 64 ==> file[i] == header[i];
  }

  lemma JoinFour(a: bytes, b: bytes, c: bytes, d: bytes)
    ensures Join([a, b, c, d]) == a + ((b + c) + d)
  {
    assert [a, b, c, d][1..] == [b, c, d] && [b, c, d][1..] == [c, d] && [c, d][1..] == [d] && [d][1..] == [];
    assert Join([d]) == d;
    assert Join([c, d]) == c + d;
    assert Join([b, c, d]) == (b + c) + d;
  }

  lemma FourSlices(a: bytes, b: bytes, c: bytes, d: bytes, all: bytes)
    requires all == a + ((b + c) + d)
    ensures |all| == |a| + |b| + |c| + |d| && all[..|a|] == a
    ensures all[|a|..|a| + |b| + |c|] == b + c && all[|a| + |b| + |c|..] == d
  {
  }

  // The header: eight big-endian words behind the magic, the little-endian flags, and zeros.
  ghost predicate HeaderSays(file: bytes, dataStart: nat, dataEnd: nat, bssEnd: nat, stack: nat, count: nat) {
    && |file| >= 64 && file[..4] == BFLT_MAGIC && UnpackBe(file, 4) == 2 && UnpackBe(file, 8) == 64
    && UnpackBe(file, 12) == dataStart && UnpackBe(file, 16) == dataEnd && UnpackBe(file, 20) == bssEnd
    && UnpackBe(file, 24) == stack && UnpackBe(file, 28) == dataEnd && UnpackBe(file, 32) == count
    && UnpackLe(file, 36) == 1 && forall i :: 40 <= i < 64 ==> file[i] == 0
  }

  lemma HeaderFields(text: nat, data: nat, bss: nat, stack: nat, count: nat, file: bytes)
    requires 64 + text + data + bss < WORD && stack < WORD && count < WORD && |file| >= 64
    requires Join(HeaderWords(64 + text, 64 + text + data, 64 + text + data + bss, stack, count)) <= file
    requires forall i :: 40 <= i < 64 ==> file[i] == 0
    ensures HeaderSays(file, 64 + text, 64 + text + data, 64 + text + data + bss, stack, count)
  {
    var words := HeaderWords(64 + text, 64 + text + data, 64 + text + data + bss, stack, count);
    HeaderWord(words, 0, file);
    FieldIs(words, 1, file, 2);
    FieldIs(words, 2, file, 64);
    FieldIs(words, 3, file, 64 + text);
    FieldIs(words, 4, file, 64 + text + data);
    FieldIs(words, 5, file, 64 + text + data + bss);
    FieldIs(words, 6, file, stack);
    FieldIs(words, 7, file, 64 + text + data);
    FieldIs(words, 8, file, count);
    HeaderWord(words, 9, file);
    ReadLe(file, 36, 1);
  }

  lemma FieldIs(words: seq<bytes>, k: nat, file: bytes, v: nat)
    requires k < |words| && (forall i :: 0 <= i < |words| ==> |words[i]| == 4)
    requires Join(words) <= file && v < WORD && words[k] == PackBe(v)
    ensures |file| >= 4 * k + 4 && UnpackBe(file, 4 * k) == v
  {
    HeaderWord(words, k, file);
    ReadBe(file, 4 * k, v);
  }

  lemma BuiltFile(text: bytes, data: bytes, bssSize: nat, relocs: seq<Reloc>, stack: nat) returns (file: bytes)
    requires BuildBflt(text, data, bssSize, relocs, stack).Ok?
    ensures BuildBflt(text, data, bssSize, relocs, stack) == Ok(file)
    ensures forall r :: r in relocs ==> r.entry < WORD
    ensures |file| == 64 + |text| + |data| + 4 * |relocs|
    ensures HeaderSays(file, 64 + |text|, 64 + |text| + |data|, 64 + |text| + |data| + bssSize, stack, |relocs|)
    ensures file[64..64 + |text| + |data|] == text + data
    ensures TableEntries(file, 64 + |text| + |data|, |relocs|) == Entries(relocs)
  {
    hide BuildBflt, HeaderWords, Join, Table, UnpackBe, HeaderSays;
    file := BuiltParts(text, data, bssSize, relocs, stack);
    TableFound(file, 64 + |text| + |data|, relocs);
    HeaderFields(|text|, |data|, bssSize, stack, |relocs|, file);
  }

  lemma ParseOf(file: bytes, image: bytes, text: nat, data: nat, bss: nat, stack: nat, entries: seq<nat>)
    requires |file| == 64 + text + data + 4 * |entries|
    requires HeaderSays(file, 64 + text, 64 + text + data, 64 + text + data + bss, stack, |entries|)
    requires file[64..64 + text + data] == image
    requires TableEntries(file, 64 + text + data, |entries|) == entries
    ensures Parse(file) == Some(Flat(image + Zeros(bss), entries, text, text + data))
  {
    var f := ParseIs(file, text, data, bss, stack, |entries|);
  }

  // The loader finds text, data, bss and every table entry where the builder put them.
  lemma ParseBuilt(text: bytes, data: bytes, bssSize: nat, relocs: seq<Reloc>, stack: nat) returns (file: bytes)
    requires BuildBflt(text, data, bssSize, relocs, stack).Ok?
    ensures BuildBflt(text, data, bssSize, relocs, stack) == Ok(file)
    ensures Parse(file) == Some(Flat(text + data + Zeros(bssSize), Entries(relocs), |text|, |text| + |data|))
    ensures HeaderSays(file, 64 + |text|, 64 + |text| + |data|, 64 + |text| + |data| + bssSize, stack, |relocs|)
  {
    hide BuildBflt, Parse, UnpackBe, HeaderSays;
    file := BuiltFile(text, data, bssSize, relocs, stack);
    ParseOf(file, text + data, |text|, |data|, bssSize, stack, Entries(relocs));
  }

  lemma TableFound(file: bytes, at: nat, relocs: seq<Reloc>)
    requires forall r :: r in relocs ==> r.entry < WORD
    requires at + 4 * |relocs| == |file| && file[at..] == Table(relocs)
    ensures TableEntries(file, at, |relocs|) == Entries(relocs)
  {
    var table := Table(relocs);
    forall i | 0 <= i < |relocs| ensures UnpackBe(file, at + 4 * i) == relocs[i].entry {
      TableAt(relocs, i);
      EntryFound(file, at, table, 4 * i, relocs[i].entry);
    }
  }

  lemma EntryFound(file: bytes, at: nat, table: bytes, i: nat, v: nat)
    requires at <= |file| && file[at..] == table && i + 4 <= |table| && v < WORD && table[i..i + 4] == PackBe(v)
    ensures UnpackBe(file, at + i) == v
  {
    ReadBe(table, i, v);
    assert table[i] == file[at + i] && table[i + 1] == file[at + i + 1];
    assert table[i + 2] == file[at + i + 2] && table[i + 3] == file[at + i + 3];
  }

  lemma ParseIs(file: bytes, text: nat, data: nat, bss: nat, stack: nat, count: nat) returns (f: Flat)
    requires HeaderSays(file, 64 + text, 64 + text + data, 64 + text + data + bss, stack, count)
    requires 64 + text + data + 4 * count <= |file|
    ensures Parse(file) == Some(f)
    ensures f.mem == file[64..64 + text + data] + Zeros(bss)
    ensures f.entries == TableEntries(file, 64 + text + data, count)
    ensures f.dataPos == text && f.dataEnd == text + data
  {
    f := Parse(file).value;
  }
}
