// The buffered FILE layer over raw read and write calls.
module Stdio {
  // A line as fgets cuts it: up to and including the first newline, at most n characters.
  function ChunkLength(text: string, n: nat): (k: nat)
    ensures k <= |text| && k <= n && (text != "" && n > 0 ==> k > 0)
  {
    if text == "" || n == 0 then 0
    else if text[0] == '\n' then 1
    else 1 + ChunkLength(text[1..], n - 1)
  }

  lemma {:induction false} ChunkLengthIs(text: string, n: nat, k: nat)
    requires k <= |text| && k <= n
    requires forall i :: 0 <= i < k - 1 ==> text[i] != '\n'
    requires k == |text| || k == n || (k > 0 && text[k - 1] == '\n')
    ensures ChunkLength(text, n) == k
  {
    if k > 0 && text[0] != '\n' { ChunkLengthIs(text[1..], n - 1, k - 1); }
  }

  lemma Shift(a: string, b: string, c: string, rest: string)
    requires rest == b + c
    ensures a + b + c == a + rest
  {
  }

  lemma Parts(a: string, b: string, all: string)
    requires a + b == all
    ensures |a| <= |all| && all[..|a|] == a && all[|a|..] == b
  {
  }

  // A line, or the beginning of one.
  ghost predicate Fragment(s: string) {
    forall i :: 0 <= i < |s| - 1 ==> s[i] != '\n'
  }

  ghost predicate Ended(s: string) {
    s != "" && s[|s| - 1] == '\n'
  }

  lemma FragmentGrows(s: string, c: char)
    ensures Fragment("") && !Ended("")
    ensures Fragment(s) && !Ended(s) ==> Fragment(s + [c])
    ensures Ended(s + [c]) <==> c == '\n'
  {
  }

  lemma ChunkIs(s: string, rest: string, all: string, n: nat)
    requires s + rest == all && |s| <= n && Fragment(s) && (|s| == n || Ended(s) || rest == "")
    ensures |s| <= |all| && s == all[..ChunkLength(all, n)] && rest == all[|s|..]
  {
    Parts(s, rest, all);
    ChunkLengthIs(all, n, |s|);
  }

  const BUFFER_SIZE := 256

  // A file as the kernel keeps it.
  class DiskFile {
    var present: bool
    var content: string
    var writable: bool
  }

  class MiniFile {
    const disk: DiskFile
    const buf: array<char>
    var mode: char
    var offset: nat
    var bufPos: nat
    var bufLen: nat
    var inUse: bool

    ghost predicate Valid()
      reads this, disk
    {
      && buf.Length == BUFFER_SIZE && inUse
      && (mode == 'r' || mode == 'w')
      && (mode == 'r' ==> bufPos <= bufLen <= BUFFER_SIZE && offset <= |disk.content|)
      && (mode == 'w' ==> bufPos <= BUFFER_SIZE)
    }

    // What a reader has still to see.
    ghost function Unread(): string
      requires Valid() && mode == 'r'
      reads this, disk, buf
    {
      buf[bufPos..bufLen] + disk.content[offset..]
    }

    // What the file holds once the buffer is flushed.
    ghost function Written(): string
      requires Valid() && mode == 'w'
      reads this, disk, buf
    {
      disk.content + buf[..bufPos]
    }

    constructor (disk: DiskFile, mode: char)
      requires mode == 'r' || mode == 'w'
      ensures Valid() && this.disk == disk && this.mode == mode && bufPos == bufLen == offset == 0 && fresh(buf)
    {
      this.disk, this.mode := disk, mode;
      offset, bufPos, bufLen, inUse := 0, 0, 0, true;
      buf := new char[BUFFER_SIZE];
    }

    // read(2): some of what is left, nothing only at the end of the file.
    method Read(max: nat) returns (chunk: string)
      requires Valid() && mode == 'r'
      modifies this`offset
      ensures Valid() && |chunk| <= max && disk.content[old(offset)..] == chunk + disk.content[offset..]
      ensures chunk == "" <==> max == 0 || old(offset) == |disk.content|
    {
      var left := |disk.content| - offset;
      if max == 0 || left == 0 { return ""; }
      var n: nat :| 1 <= n <= max && n <= left;
      chunk := disk.content[offset..offset + n];
      offset := offset + n;
    }

    // write(2), taking everything.
    method Write(s: string)
      requires Valid() && mode == 'w'
      modifies disk`content
      ensures Valid() && disk.content == old(disk.content) + s
    {
      disk.content := disk.content + s;
    }

    // Refill the buffer; false at the end of the file.
    method Refill() returns (ok: bool)
      requires Valid() && mode == 'r' && bufPos >= bufLen
      modifies this`offset, this`bufPos, this`bufLen, buf
      ensures Valid() && Unread() == old(Unread())
      ensures ok <==> bufPos < bufLen
      ensures !ok ==> Unread() == ""
    {
      ghost var before := Unread();
      assert before == disk.content[offset..];
      var chunk := Read(BUFFER_SIZE);
      forall i | 0 <= i < |chunk| { buf[i] := chunk[i]; }
      bufPos, bufLen := 0, |chunk|;
      assert buf[0..|chunk|] == chunk;
      ok := bufLen > 0;
    }

    // The next buffered character.
    method TakeChar() returns (c: char)
      requires Valid() && mode == 'r' && bufPos < bufLen
      modifies this`bufPos
      ensures Valid() && bufPos == old(bufPos) + 1 && old(Unread()) == [c] + Unread()
    {
      c := buf[bufPos];
      bufPos := bufPos + 1;
      assert old(buf[bufPos..bufLen]) == [c] + buf[bufPos..bufLen];
    }

    method Fgets(size: int) returns (ok: bool, s: string)
      requires Valid() && mode == 'r'
      modifies this`offset, this`bufPos, this`bufLen, buf
      ensures Valid()
      ensures size <= 0 ==> !ok && Unread() == old(Unread())
      ensures size > 0 ==> s == old(Unread())[..ChunkLength(old(Unread()), size - 1)] && Unread() == old(Unread())[|s|..]
      ensures size > 0 ==> (ok <==> s != "")
    {
      hide Unread, Valid, ChunkLength, Fragment, Ended;
      s := "";
      FragmentGrows(s, ' ');
      if size <= 0 { return false, ""; }
      ghost var all := Unread();
      var done := false;
      while |s| < size - 1 && !done
        invariant Valid() && mode == 'r' && |s| <= size - 1 && s + Unread() == all
        invariant Fragment(s) && (Ended(s) ==> done) && (done ==> Ended(s) || Unread() == "")
        decreases !done, size - 1 - |s|
      {
        var more := true;
        if bufPos >= bufLen { more := Refill(); }
        if !more {
          done := true;
        } else {
          ghost var s0, rest := s, Unread();
          var c := TakeChar();
          s := s + [c];
          Shift(s0, [c], Unread(), rest);
          FragmentGrows(s0, c);
          done := c == '\n';
        }
      }
      ChunkIs(s, Unread(), all, size - 1);
      ok := s != "";
    }

    // read(2) once the buffer is drained.
    method ReadPast(max: nat) returns (chunk: string)
      requires Valid() && mode == 'r' && bufPos >= bufLen
      modifies this`offset
      ensures Valid() && |chunk| <= max && old(Unread()) == chunk + Unread()
      ensures chunk == "" && max > 0 ==> Unread() == ""
    {
      ghost var rest := Unread();
      assert rest == disk.content[offset..];
      chunk := Read(max);
      assert Unread() == disk.content[offset..];
    }

    // Drain the buffer, then read past it until enough or the end.
    method ReadTotal(total: nat) returns (data: string)
      requires Valid() && mode == 'r'
      modifies this`offset, this`bufPos
      ensures Valid() && data + Unread() == old(Unread())
      ensures |data| <= total && (|data| == total || Unread() == "")
    {
      hide Unread;
      data := "";
      ghost var all := Unread();
      while |data| < total && bufPos < bufLen
        invariant Valid() && |data| <= total && data + Unread() == all
        decreases bufLen - bufPos
      {
        ghost var data0, rest := data, Unread();
        var c := TakeChar();
        data := data + [c];
        Shift(data0, [c], Unread(), rest);
      }
      var done := false;
      while |data| < total && !done
        invariant Valid() && |data| <= total && data + Unread() == all
        invariant |data| < total ==> bufPos >= bufLen
        invariant done ==> Unread() == ""
        decreases !done, total - |data|
      {
        ghost var data0, rest := data, Unread();
        var chunk := ReadPast(total - |data|);
        data := data + chunk;
        done := chunk == "";
        Shift(data0, chunk, Unread(), rest);
      }
    }

    method Fread(size: nat, nmemb: nat) returns (n: nat, data: string)
      requires Valid() && mode == 'r'
      modifies this`offset, this`bufPos
      ensures Valid()
      ensures var all := old(Unread()); var total := size * nmemb;
              data == (if total < |all| then all[..total] else all) && Unread() == all[|data|..]
      ensures n == if size > 0 then |data| / size else 0
    {
      hide Unread;
      var total := size * nmemb;
      ghost var all := Unread();
      data := ReadTotal(total);
      Parts(data, Unread(), all);
      n := if size > 0 then |data| / size else 0;
    }

    method Fwrite(data: string, size: nat, nmemb: nat) returns (n: nat)
      requires Valid() && mode == 'w' && size * nmemb == |data|
      modifies this`bufPos, buf, disk`content
      ensures Valid() && Written() == old(Written()) + data
      ensures n == if |data| == 0 then 0 else nmemb
    {
      var total := size * nmemb;
      if total == 0 { return 0; }
      if bufPos + total > BUFFER_SIZE {
        if bufPos > 0 {
          Write(buf[..bufPos]);
          bufPos := 0;
        }
        if total > BUFFER_SIZE {
          Write(data);
          return nmemb;
        }
      }
      ghost var before := buf[..bufPos];
      forall i | 0 <= i < total { buf[bufPos + i] := data[i]; }
      assert buf[..bufPos + total] == before + data;
      bufPos := bufPos + total;
      return nmemb;
    }

    // 0 on success, -1 otherwise.
    method Fputs(s: string) returns (r: int)
      requires Valid() && mode == 'w'
      modifies this`bufPos, buf, disk`content
      ensures Valid() && Written() == old(Written()) + s && r == 0
    {
      var n := Fwrite(s, 1, |s|);
      r := if n == |s| then 0 else -1;
    }

    method Fclose() returns (r: int)
      requires Valid()
      modifies this`inUse, disk`content
      ensures r == 0 && !inUse
      ensures mode == 'r' ==> disk.content == old(disk.content)
      ensures mode == 'w' ==> disk.content == old(Written())
    {
      if mode == 'w' && bufPos > 0 { Write(buf[..bufPos]); }
      inUse := false;
      return 0;
    }
  }

  // fopen on a path: "r" needs the file, "w" creates or truncates it if it may.
  method Fopen(disk: DiskFile, mode: char) returns (f: MiniFile?)
    modifies disk`present, disk`content
    ensures f == null <==> !(mode == 'r' && old(disk.present)) && !(mode == 'w' && disk.writable)
    ensures f == null || mode == 'r' ==> disk.content == old(disk.content) && disk.present == old(disk.present)
    ensures f != null && mode == 'w' ==> disk.present && disk.content == ""
    ensures f != null ==> fresh(f) && fresh(f.buf) && f.Valid() && f.disk == disk && f.mode == mode
    ensures f != null && mode == 'r' ==> f.Unread() == disk.content
    ensures f != null && mode == 'w' ==> f.Written() == ""
  {
    if mode != 'r' && mode != 'w' { return null; }
    if mode == 'r' && !disk.present { return null; }
    if mode == 'w' {
      if !disk.writable { return null; }
      disk.present := true;
      disk.content := "";
    }
    f := new MiniFile(disk, mode);
  }

  // memmove inside one buffer: correct for overlapping ranges in either direction.
  method Memmove(a: array<char>, dst: nat, src: nat, n: nat)
    requires dst + n <= a.Length && src + n <= a.Length
    modifies a
    ensures a[dst..dst + n] == old(a[src..src + n])
    ensures forall k :: 0 <= k < a.Length && (k < dst || dst + n <= k) ==> a[k] == old(a[k])
  {
    if dst < src {
      var i := 0;
      while i < n
        invariant 0 <= i <= n
        invariant forall k :: dst <= k < dst + i ==> a[k] == old(a[k - dst + src])
        invariant forall k :: 0 <= k < a.Length && (k < dst || dst + i <= k) ==> a[k] == old(a[k])
      {
        a[dst + i] := a[src + i];
        i := i + 1;
      }
    } else {
      var i := n;
      while i > 0
        invariant 0 <= i <= n
        invariant forall k :: dst + i <= k < dst + n ==> a[k] == old(a[k - dst + src])
        invariant forall k :: 0 <= k < a.Length && (k < dst + i || dst + n <= k) ==> a[k] == old(a[k])
      {
        i := i - 1;
        a[dst + i] := a[src + i];
      }
    }
  }
}
