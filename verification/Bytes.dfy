// Bytes, 32-bit words and the two byte orders used by the firmware tools.
module Bytes {
  type byte = x: int | 0 <= x < 256
  type bytes = seq<byte>

  const WORD := 0x1_0000_0000

  function Zeros(n: nat): (z: bytes)
    ensures |z| == n && forall i :: 0 <= i < n ==> z[i] == 0
  {
    seq(n, i => 0)
  }

  // Byte i of a word, least significant first.
  function Digit(v: nat, i: nat): byte
    requires v < WORD && i < 4
  {
    match i
    case 0 => v % 256
    case 1 => v / 0x100 % 256
    case 2 => v / 0x1_0000 % 256
    case _ => v / 0x100_0000
  }

  // '<I': least significant byte first.
  function PackLe(v: nat): (b: bytes)
    requires v < WORD
    ensures |b| == 4
  {
    seq(4, i requires 0 <= i < 4 => Digit(v, i))
  }

  function UnpackLe(b: bytes, i: nat): (v: nat)
    requires i + 4 <= |b|
    ensures v < WORD
  {
    b[i] as int + 0x100 * b[i + 1] as int + 0x1_0000 * b[i + 2] as int + 0x100_0000 * b[i + 3] as int
  }

  // '>I': most significant byte first.
  function PackBe(v: nat): (b: bytes)
    requires v < WORD
    ensures |b| == 4
  {
    seq(4, i requires 0 <= i < 4 => Digit(v, 3 - i))
  }

  function UnpackBe(b: bytes, i: nat): (v: nat)
    requires i + 4 <= |b|
    ensures v < WORD
  {
    0x100_0000 * b[i] as int + 0x1_0000 * b[i + 1] as int + 0x100 * b[i + 2] as int + b[i + 3] as int
  }

  // Both byte orders are bijections between words and four-byte strings.
  lemma WordRoundTrip(v: nat, b: bytes, i: nat)
    requires v < WORD && i + 4 <= |b|
    ensures UnpackLe(PackLe(v), 0) == v && UnpackBe(PackBe(v), 0) == v
    ensures PackLe(UnpackLe(b, i)) == b[i..i + 4]
    ensures PackBe(UnpackBe(b, i)) == b[i..i + 4]
  {
    Split(v);
    assert PackLe(v)[0] == v % 256 && PackLe(v)[1] == v / 0x100 % 256;
    assert PackBe(v)[3] == v % 256 && PackBe(v)[2] == v / 0x100 % 256;
    Unweigh(b[i], b[i + 1], b[i + 2], b[i + 3]);
    Unweigh(b[i + 3], b[i + 2], b[i + 1], b[i]);
  }

  // A packed word found anywhere reads back.
  lemma ReadBe(file: bytes, at: nat, v: nat)
    requires at + 4 <= |file| && v < WORD && file[at..at + 4] == PackBe(v)
    ensures UnpackBe(file, at) == v
  {
    WordRoundTrip(v, file, at);
    var p := file[at..at + 4];
    assert p[0] == file[at] && p[1] == file[at + 1] && p[2] == file[at + 2] && p[3] == file[at + 3];
  }

  lemma ReadLe(file: bytes, at: nat, v: nat)
    requires at + 4 <= |file| && v < WORD && file[at..at + 4] == PackLe(v)
    ensures UnpackLe(file, at) == v
  {
    WordRoundTrip(v, file, at);
    var p := file[at..at + 4];
    assert p[0] == file[at] && p[1] == file[at + 1] && p[2] == file[at + 2] && p[3] == file[at + 3];
  }

  // Which end comes first.
  lemma ByteOrders()
    ensures PackBe(0x1234_5678) == [0x12, 0x34, 0x56, 0x78] && PackLe(0x1234_5678) == [0x78, 0x56, 0x34, 0x12]
  {
    assert 0x1234_5678 % 256 == 0x78 && 0x1234_5678 / 0x100 == 0x12_3456;
    assert 0x1234_5678 / 0x1_0000 == 0x1234 && 0x1234_5678 / 0x100_0000 == 0x12;
  }

  lemma Unweigh(b0: nat, b1: nat, b2: nat, b3: nat)
    requires b0 < 256 && b1 < 256 && b2 < 256 && b3 < 256
    ensures var w := b0 + 0x100 * b1 + 0x1_0000 * b2 + 0x100_0000 * b3;
            w % 256 == b0 && w / 0x100 % 256 == b1 && w / 0x1_0000 % 256 == b2 && w / 0x100_0000 == b3
  {
    var w := b0 + 0x100 * b1 + 0x1_0000 * b2 + 0x100_0000 * b3;
    assert w / 0x100_0000 == b3;
    assert w / 0x1_0000 == 0x100 * b3 + b2;
    assert w / 0x100 == 0x1_0000 * b3 + 0x100 * b2 + b1;
  }

  lemma Split(v: nat)
    requires v < WORD
    ensures v == v % 256 + 0x100 * (v / 0x100 % 256) + 0x1_0000 * (v / 0x1_0000 % 256) + 0x100_0000 * (v / 0x100_0000)
  {
    var q1 := v / 0x100;
    var q2 := q1 / 0x100;
    assert v / 0x1_0000 == q2;
    assert v / 0x100_0000 == q2 / 0x100;
    assert v == v % 0x100 + 0x100 * q1;
    assert q1 == q1 % 0x100 + 0x100 * q2;
    assert q2 == q2 % 0x100 + 0x100 * (q2 / 0x100);
  }

  // struct.pack_into('<I', b, i, v)
  function Poke(b: bytes, i: nat, v: nat): (r: bytes)
    requires i + 4 <= |b| && v < WORD
    ensures |r| == |b|
  {
    b[i := Digit(v, 0)][i + 1 := Digit(v, 1)][i + 2 := Digit(v, 2)][i + 3 := Digit(v, 3)]
  }

  // The word at i becomes v and every word apart from it keeps its value.
  lemma PokeWord(b: bytes, i: nat, v: nat, j: nat)
    requires i + 4 <= |b| && v < WORD && j + 4 <= |b|
    ensures j == i ==> UnpackLe(Poke(b, i, v), j) == v
    ensures j + 4 <= i || i + 4 <= j ==> UnpackLe(Poke(b, i, v), j) == UnpackLe(b, j)
  {
    WordRoundTrip(v, b, i);
  }

  lemma PokeByte(b: bytes, i: nat, v: nat, j: nat)
    requires i + 4 <= |b| && v < WORD && j < |b| && (j < i || i + 4 <= j)
    ensures Poke(b, i, v)[j] == b[j]
  {
  }

  // Writing back the value just read changes nothing.
  lemma PokeSame(b: bytes, i: nat)
    requires i + 4 <= |b|
    ensures Poke(b, i, UnpackLe(b, i)) == b
  {
    WordRoundTrip(UnpackLe(b, i), b, i);
  }
}
