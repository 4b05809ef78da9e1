// The Linux 2.0 bFLT v2 loader the converter targets: text, data and bss are
// contiguous from start_code, and old_reloc adds a segment start to each site.
module FlatLoader {
  import opened Prelude
  import opened Bytes
  import opened Elf

  function TableEntries(file: bytes, at: nat, n: nat): (t: seq<nat>)
    requires at + 4 * n <= |file|
    ensures |t| == n && forall i :: 0 <= i < n ==> t[i] == UnpackBe(file, at + 4 * i)
  {
    seq(n, i requires 0 <= i < n => UnpackBe(file, at + 4 * i))
  }

  // The amount old_reloc adds: start_code, start_data or end_data.
  function Segment(kind: nat, startCode: nat, startData: nat, endData: nat): Option<nat> {
    match kind
    case 0 => Some(startCode)
    case 1 => Some(startData)
    case 2 => Some(endData)
    case _ => None
  }

  // old_reloc over table entries i, i + 1, ..; a site outside the program is a fault.
  function OldReloc(mem: bytes, entries: seq<nat>, i: nat, dataPos: nat, startCode: nat, startData: nat, endData: nat): Option<bytes>
    decreases |entries| - i
  {
    if i >= |entries| then Some(mem)
    else
      var at := dataPos + entries[i] % 0x400_0000;
      match Segment(entries[i] / 0x400_0000, startCode, startData, endData)
      case None => None
      case Some(start) =>
        if at + 4 > |mem| then None
        else OldReloc(Poke(mem, at, (UnpackLe(mem, at) + start) % 0x1_0000_0000), entries, i + 1, dataPos, startCode, startData, endData)
  }

  // The contiguous image read from the file and the table to apply to it.
  datatype Flat = Flat(mem: bytes, entries: seq<nat>, dataPos: nat, dataEnd: nat)

  function Parse(file: bytes): Option<Flat> {
    if |file| < 64 || file[..4] != [98, 70, 76, 84] || UnpackBe(file, 4) != 2 then None
    else
      var entry, dataStart, dataEnd, bssEnd := UnpackBe(file, 8), UnpackBe(file, 12), UnpackBe(file, 16), UnpackBe(file, 20);
      var relocStart, relocCount := UnpackBe(file, 28), UnpackBe(file, 32);
      if !(entry <= dataStart <= dataEnd <= bssEnd && dataEnd <= |file| && relocStart + 4 * relocCount <= |file|) then None
      else
        Some(Flat(file[entry..dataEnd] + Zeros(bssEnd - dataEnd), TableEntries(file, relocStart, relocCount),
                  dataStart - entry, dataEnd - entry))
  }

  // The program's memory from start_code to the end of bss.
  function Load(file: bytes, startCode: nat): Option<bytes> {
    match Parse(file)
    case None => None
    case Some(f) => OldReloc(f.mem, f.entries, 0, f.dataPos, startCode, startCode + f.dataPos, startCode + f.dataEnd)
  }
}
