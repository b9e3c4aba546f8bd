/** kernel/fs/drivers/initramfs.c as it runs: the archive is scanned by offset, names are
    edited in place in a buffer, and the file system is filled. */
module Initramfs {
  import opened Common
  import opened FsTree
  import opened Unpacking
  import opened CpioArchive
  import FileSystem

  // ---------------------------------------------------------------------
  // The name buffer
  // ---------------------------------------------------------------------

  /** A buffer that holds a C string. */
  ghost predicate Holds(a: seq<char>, s: string) {
    |s| < |a| && a[..|s|] == s && a[|s|] == '\0' && '\0' !in s
  }

  lemma HeldChar(a: seq<char>, s: string, i: nat)
    requires Holds(a, s) && i <= |s|
    ensures i < |a| && (if i < |s| then a[i] == s[i] && a[i] != '\0' else a[i] == '\0')
  {
    if i < |s| {
      assert a[..|s|][i] == a[i] && s[i] in s;
    }
  }

  lemma Shorter(a: seq<char>, s: string, n: nat)
    requires Holds(a, s) && n <= |s|
    ensures n < |a| && '\0' !in s[..n] && Holds(a[n := '\0'], s[..n])
  {
    assert a[n := '\0'][..n] == a[..|s|][..n];
  }

  /** Reads the string up to its NUL. */
  method Text(a: array<char>, ghost held: string) returns (s: string)
    requires Holds(a[..], held)
    ensures s == held
  {
    var i := 0;
    HeldChar(a[..], held, 0);
    while a[i] != '\0'
      invariant i <= |held| && i < a.Length && (a[i] == '\0' <==> i == |held|)
      decreases |held| - i
    {
      i := i + 1;
      HeldChar(a[..], held, i);
    }
    s := a[..i];
  }

  /** Removes every leading "./" by moving the rest of the string down. */
  method StripDotSlash(a: array<char>, ghost held: string)
    requires Holds(a[..], held)
    modifies a
    ensures Holds(a[..], StripDots(held))
  {
    ghost var cur := held;
    FirstTwo(a[..], cur);
    while a[0] == '.' && a[1] == '/'
      invariant Holds(a[..], cur) && StripDots(cur) == StripDots(held) && a.Length > 0
      invariant a[0] == '.' ==> a.Length > 1
      invariant |cur| >= 2 && cur[0] == '.' && cur[1] == '/' <==> a[0] == '.' && a[1] == '/'
      decreases |cur|
    {
      var rest := Text2(a, cur);
      ghost var was := a[..];
      forall i | 0 <= i < rest + 1 {
        a[i] := a[i + 2];
      }
      MovedDown(was, a[..], cur);
      cur := cur[2..];
      FirstTwo(a[..], cur);
    }
  }

  lemma FirstTwo(a: seq<char>, s: string)
    requires Holds(a, s)
    ensures |a| > 0 && (a[0] == '.' ==> |a| > 1)
    ensures |s| >= 2 && s[0] == '.' && s[1] == '/' <==> a[0] == '.' && a[1] == '/'
  {
    HeldChar(a, s, 0);
    if |s| > 0 {
      HeldChar(a, s, 1);
    }
  }

  /** The length of what follows the first two characters. */
  method Text2(a: array<char>, ghost held: string) returns (n: nat)
    requires Holds(a[..], held) && |held| >= 2
    ensures n == |held| - 2
  {
    n := 0;
    HeldChar(a[..], held, 2);
    while a[2 + n] != '\0'
      invariant 2 + n <= |held| && 2 + n < a.Length && (a[2 + n] == '\0' <==> 2 + n == |held|)
      decreases |held| - n
    {
      n := n + 1;
      HeldChar(a[..], held, 2 + n);
    }
  }

  lemma MovedDown(was: seq<char>, a: seq<char>, s: string)
    requires Holds(was, s) && |s| >= 2 && |a| == |was|
    requires forall i :: 0 <= i < |s| - 1 ==> a[i] == was[i + 2]
    ensures Holds(a, s[2..])
  {
    assert was[..|s|][2..] == a[..|s| - 2];
  }

  /** Cuts off every trailing slash, for directories. */
  method TrimSlashes(a: array<char>, ghost held: string) returns (length: nat)
    requires Holds(a[..], held)
    modifies a
    ensures Holds(a[..], TrimAll(held)) && length == |TrimAll(held)|
  {
    ghost var cur := held;
    var text := Text(a, held);
    length := |text|;
    while length > 0 && a[length - 1] == '/'
      invariant Holds(a[..], cur) && length == |cur| && length <= a.Length && TrimAll(cur) == TrimAll(held)
      decreases length
    {
      HeldChar(a[..], cur, length - 1);
      Shorter(a[..], cur, length - 1);
      length := length - 1;
      a[length] := '\0';
      cur := cur[..length];
    }
    if length > 0 {
      HeldChar(a[..], cur, length - 1);
    }
  }

  /** Cuts off one trailing slash, for files. */
  method TrimSlash(a: array<char>, ghost held: string) returns (length: nat)
    requires Holds(a[..], held)
    modifies a
    ensures Holds(a[..], TrimOne(held)) && length == |TrimOne(held)|
  {
    var text := Text(a, held);
    length := |text|;
    if length > 0 {
      HeldChar(a[..], held, length - 1);
    }
    if length != 0 && a[length - 1] == '/' {
      Shorter(a[..], held, length - 1);
      length := length - 1;
      a[length] := '\0';
    }
  }

  // ---------------------------------------------------------------------
  // Headers
  // ---------------------------------------------------------------------

  lemma {:induction false} HexStops(s: string, i: nat)
    requires i <= |s| && Hex(s[..i]).None?
    ensures Hex(s).None?
    decreases |s|
  {
    if i == |s| {
      assert s[..i] == s;
    } else {
      assert s[..|s| - 1][..i] == s[..i];
      HexStops(s[..|s| - 1], i);
    }
  }

  /** hex8. A value of i digits is below 16 to the i, so the 32-bit shift loses no bit
      and the digit falls on zeros. */
  method Hex8(s: string) returns (ok: bool, value: nat)
    requires |s| == 8
    ensures ok <==> Hex(s).Some?
    ensures ok ==> Hex(s) == Some(value) && value < 0x1_0000_0000
  {
    hide DigitValue;
    value := 0;
    for i := 0 to 8
      invariant Hex(s[..i]) == Some(value)
    {
      assert s[..i + 1][..i] == s[..i];
      var digit := DigitValue(s[i]);
      if digit.None? {
        HexStops(s, i + 1);
        return false, 0;
      }
      value := value * 16 + digit.value;
    }
    assert s[..8] == s;
    Pow16Of8();
    ok := true;
  }

  lemma SubRange(bytes: string, offset: nat, i: nat, j: nat)
    requires offset <= |bytes| && i <= j && offset + j <= |bytes|
    ensures bytes[offset..][i..j] == bytes[offset + i..offset + j]
  {
  }

  /** The thirteen fields of the header at offset. */
  method ReadFields(bytes: string, offset: nat) returns (ok: bool, fields: array<nat>)
    requires offset <= |bytes| && |bytes| - offset >= HEADER_SIZE
    ensures fresh(fields) && fields.Length == 13
    ensures ok <==> forall i :: 0 <= i < 13 ==> Field(bytes[offset..], i).Some?
    ensures ok ==> forall i :: 0 <= i < 13 ==> Field(bytes[offset..], i) == Some(fields[i])
  {
    hide Hex;
    fields := new nat[13];
    for i := 0 to 13
      invariant forall k :: 0 <= k < i ==> Field(bytes[offset..], k) == Some(fields[k])
    {
      SubRange(bytes, offset, 6 + 8 * i, 6 + 8 * i + 8);
      var good, value := Hex8(bytes[offset + 6 + 8 * i..offset + 6 + 8 * i + 8]);
      if !good {
        assert Field(bytes[offset..], i).None?;
        return false, fields;
      }
      fields[i] := value;
    }
    ok := true;
  }

  lemma AlignedPadding(offset: nat, n: nat)
    requires offset % 4 == 0
    ensures Padding(offset + n) == Padding(n)
  {
    var k := offset / 4;
    assert offset == 4 * k;
    SameRemainder(k, n);
  }

  /** What ReadHeader says of the bytes from offset on, with the name in the buffer. */
  ghost predicate Reads(h: Header, code: int, last: bool, mode: nat, start: nat, size: nat, name: seq<char>, offset: nat) {
    match h
    case Bad(c) => code == c
    case Trailer => code == 0 && last
    case File(m, n, st, sz) =>
      code == 0 && !last && mode == m && start == offset + st && size == sz && Holds(name, n)
  }

  /** The part of parse_cpio_disk that reads one header and its name. */
  method ReadEntry(bytes: string, offset: nat, name: array<char>)
    returns (code: int, last: bool, mode: nat, start: nat, size: nat)
    requires offset <= |bytes| && offset % 4 == 0 && name.Length == MAX_PATH + 1
    modifies name
    ensures Reads(CpioArchive.ReadHeader(bytes[offset..]), code, last, mode, start, size, name[..], offset)
  {
    hide Padding, StripDots, Field;
    code, last, mode, start, size := 0, false, 0, 0, 0;
    if |bytes| - offset < HEADER_SIZE {
      code := -5;
      return;
    }
    SubRange(bytes, offset, 0, 6);
    assert bytes[offset..][..6] == bytes[offset..][0..6];
    if bytes[offset..offset + 6] != MAGIC {
      code := -2;
      return;
    }
    var ok, fields := ReadFields(bytes, offset);
    if !ok {
      code := -1;
      return;
    }
    mode, size := fields[1], fields[6];
    code, last, start := ReadNameAt(bytes, offset, name, mode, size, fields[11]);
  }

  /** memcpy of the name into the buffer, and the checks on it. */
  method ReadNameAt(bytes: string, offset: nat, name: array<char>, mode: nat, filesize: nat, namesize: nat)
    returns (code: int, last: bool, start: nat)
    requires offset + HEADER_SIZE <= |bytes| && offset % 4 == 0 && name.Length == MAX_PATH + 1
    modifies name
    ensures Reads(CpioArchive.ReadName(bytes[offset..], mode, filesize, namesize),
                  code, last, mode, start, filesize, name[..], offset)
  {
    hide Padding, StripDots;
    code, last, start := 0, false, 0;
    var here := offset + HEADER_SIZE;
    if namesize == 0 || namesize > MAX_PATH + 1 {
      code := -3;
      return;
    }
    if |bytes| - here < namesize {
      code := -3;
      return;
    }
    forall i | 0 <= i < namesize {
      name[i] := bytes[here + i];
    }
    ghost var raw := bytes[offset..][HEADER_SIZE..HEADER_SIZE + namesize - 1];
    SubRange(bytes, offset, HEADER_SIZE, HEADER_SIZE + namesize - 1);
    here := here + namesize;
    var good := EndsWithNul(name, namesize, raw);
    if !good {
      code := -3;
      return;
    }
    var padding := Padding(here);
    AlignedPadding(offset, HEADER_SIZE + namesize);
    if |bytes| - here < padding {
      code := -5;
      return;
    }
    start := here + padding;
    var text := Text(name, raw);
    if text == TRAILER {
      last := true;
      return;
    }
    StripDotSlash(name, raw);
    HeldChar(name[..], StripDots(raw), 0);
    if name[0] == '/' {
      code := -3;
      return;
    }
    if |bytes| - start < filesize {
      code := -4;
      return;
    }
  }

  /** Whether the name ends with its only NUL. */
  method EndsWithNul(name: array<char>, namesize: nat, ghost raw: string) returns (good: bool)
    requires 0 < namesize <= name.Length && |raw| == namesize - 1 && name[..namesize - 1] == raw
    ensures good <==> name[namesize - 1] == '\0' && '\0' !in raw
    ensures good ==> Holds(name[..], raw)
  {
    if name[namesize - 1] != '\0' {
      return false;
    }
    var i := 0;
    while name[i] != '\0'
      invariant i < namesize && forall k :: 0 <= k < i ==> raw[k] != '\0'
      invariant forall k :: 0 <= k < namesize - 1 ==> raw[k] == name[k]
      decreases namesize - i
    {
      i := i + 1;
    }
    good := i == namesize - 1;
    if !good {
      assert raw[i] == '\0';
    } else {
      assert name[..][..|raw|] == name[..namesize - 1];
    }
  }

  // ---------------------------------------------------------------------
  // Filling the file system
  // ---------------------------------------------------------------------

  /** ensure_parent_directories: every slash in turn ends the string for a moment. */
  method EnsureParentDirectories(fs: FileSystem.Fs, path: array<char>, ghost s: string) returns (ok: bool)
    requires fs.Valid() && Holds(path[..], s)
    modifies fs`tree, fs`at, fs`blocks, fs`owner, fs.heap, fs.at.Values, path
    ensures fs.Valid() && path[..] == old(path[..])
    ensures forall f :: f in fs.at.Values ==> f in old(fs.at.Values) || fresh(f)
    ensures fs.heap.failures >= old(fs.heap.failures)
    ensures fs.heap.failures == old(fs.heap.failures) ==> (ok, fs.tree) == Parents(old(fs.tree), s, 0)
    ensures fs.heap.failures > old(fs.heap.failures) ==> !ok
  {
    hide FileSystem.Fs.Graph, TreeOk, Create, Grows, FileSystem.Allocator.Valid;
    fs.TreeKnown();
    var p := 0;
    HeldChar(path[..], s, 0);
    while path[p] != '\0'
      invariant p <= |s| && p < path.Length && (path[p] == '\0' <==> p == |s|) && path[..] == old(path[..])
      invariant fs.Valid() && fs.heap.failures == old(fs.heap.failures)
      invariant forall f :: f in fs.at.Values ==> f in old(fs.at.Values) || fresh(f)
      invariant TreeOk(fs.tree) && TreeOk(old(fs.tree)) && '\0' !in s
      invariant Parents(fs.tree, s, p) == Parents(old(fs.tree), s, 0)
      decreases |s| - p
    {
      HeldChar(path[..], s, p);
      if path[p] == '/' {
        if p == 0 {
          return false;
        }
        Shorter(path[..], s, p);
        path[p] := '\0';
        var prefix := Text(path, s[..p]);
        ghost var place;
        var result;
        result, place := fs.CreateFolder(Some(prefix));
        path[p] := '/';
        fs.TreeKnown();
        if !Made(result) {
          return false;
        }
      }
      p := p + 1;
      HeldChar(path[..], s, p);
    }
    ok := true;
  }

  /** The part of parse_cpio_disk that acts on one entry. */
  method InstallMember(fs: FileSystem.Fs, name: array<char>, mode: nat, data: string, ghost held: string)
    returns (code: int)
    requires fs.Valid() && Holds(name[..], held)
    modifies fs`tree, fs`at, fs`blocks, fs`owner, fs.heap, fs.at.Values, name
    ensures fs.Valid()
    ensures forall f :: f in fs.at.Values ==> f in old(fs.at.Values) || fresh(f)
    ensures fs.heap.failures >= old(fs.heap.failures)
    ensures fs.heap.failures == old(fs.heap.failures) ==>
              (code, fs.tree) == InstallEntry(old(fs.tree), Entry(mode, held, data))
    ensures fs.heap.failures == old(fs.heap.failures) ==>
              forall p: Place :: p.Kid? && GoodPlace(p) && "/" + held == PathOf(p) ==>
                MadeByMode(old(fs.tree), code, fs.tree, mode, data, p)
    ensures fs.heap.failures > old(fs.heap.failures) ==> code != 0
  {
    hide FileSystem.Fs.Graph, TreeOk, Create, Parents, Grows, FileSystem.Allocator.Valid, TrimAll, TrimOne, MadeByMode,
         GoodPlace, PathOf;
    fs.TreeKnown();
    forall p: Place | p.Kid? && GoodPlace(p) && "/" + held == PathOf(p)
      ensures MadeByMode(fs.tree, InstallEntry(fs.tree, Entry(mode, held, data)).0,
                         InstallEntry(fs.tree, Entry(mode, held, data)).1, mode, data, p)
    {
      EntryByMode(fs.tree, Entry(mode, held, data), p);
    }
    var text := Text(name, held);
    if text == "" || text == "." {
      return 0;
    }
    var fileType := FileType(mode);
    ghost var place;
    var ok, result;
    if fileType == DIRECTORY {
      var length := TrimSlashes(name, held);
      if length == 0 {
        return -3;
      }
      ok := EnsureParentDirectories(fs, name, TrimAll(held));
      if !ok {
        return -6;
      }
      text := Text(name, TrimAll(held));
      fs.TreeKnown();
      result, place := fs.CreateFolder(Some(text));
      if !Made(result) {
        return -6;
      }
    } else if fileType == REGULAR || fileType == SYMLINK || fileType == 0 {
      var length := TrimSlash(name, held);
      if length == 0 {
        return -3;
      }
      ok := EnsureParentDirectories(fs, name, TrimOne(held));
      if !ok {
        return -3;
      }
      text := Text(name, TrimOne(held));
      fs.TreeKnown();
      result, place := fs.CreateFile(Some(text), Some(data), |data|, 0);
      if !Made(result) {
        return -6;
      }
    }
    return 0;
  }

  /** parse_cpio_disk: the code and the tree are what the bytes mean, as long as memory
      lasts; without memory the code says so. */
  method ParseCpioDisk(fs: FileSystem.Fs, disk: Option<string>) returns (code: int)
    requires fs.Valid()
    modifies fs`tree, fs`at, fs`blocks, fs`owner, fs.heap, fs.at.Values
    ensures fs.Valid()
    ensures fs.heap.failures >= old(fs.heap.failures)
    ensures disk.None? ==> code == -7 && fs.tree == old(fs.tree)
    ensures disk.Some? && fs.heap.failures == old(fs.heap.failures) ==>
              TreeOk(old(fs.tree)) && (code, fs.tree) == Parse(old(fs.tree), disk.value)
    ensures fs.heap.failures > old(fs.heap.failures) ==> code != 0
  {
    hide FileSystem.Fs.Graph, TreeOk, CpioArchive.ReadHeader, InstallEntry, Grows, FileSystem.Allocator.Valid, Holds,
         Padding;
    if disk.None? {
      return -7;
    }
    var bytes, offset := disk.value, 0;
    fs.TreeKnown();
    assert bytes[0..] == bytes;
    while true
      invariant offset <= |bytes| && offset % 4 == 0
      invariant fs.Valid() && fs.heap.failures == old(fs.heap.failures)
      invariant forall f :: f in fs.at.Values ==> f in old(fs.at.Values) || fresh(f)
      invariant TreeOk(fs.tree) && TreeOk(old(fs.tree))
      invariant Parse(fs.tree, bytes[offset..]) == Parse(old(fs.tree), bytes)
      decreases |bytes| - offset
    {
      ghost var s := bytes[offset..];
      var name := new char[MAX_PATH + 1];
      var last, mode, start, size;
      code, last, mode, start, size := ReadEntry(bytes, offset, name);
      if code != 0 {
        return;
      }
      if last {
        return 0;
      }
      ghost var held := CpioArchive.ReadHeader(s).name;
      SubRange(bytes, offset, start - offset, start - offset + size);
      code := InstallMember(fs, name, mode, bytes[start..start + size], held);
      if code != 0 {
        return;
      }
      fs.TreeKnown();
      AlignedPadding(offset, start - offset + size);
      ghost var next := start - offset + size + Padding(start + size);
      if next <= |s| {
        assert s[next..] == bytes[offset + next..];
      }
      offset := start + size;
      var padding := Padding(offset);
      if |bytes| - offset < padding {
        return -5;
      }
      offset := offset + padding;
    }
  }

  /** init_fs: the root, then the archive; any other code than 0 ends in kernel_panic. */
  method InitFs(heap: FileSystem.Allocator, disk: Option<string>) returns (fs: FileSystem.Fs, halted: bool)
    requires heap.Valid()
    modifies heap
    ensures fresh(fs) && fs.heap == heap && fs.Valid() && fs.others == old(heap.live)
    ensures !halted ==> disk.Some? && TreeOk(EMPTY) && Parse(EMPTY, disk.value) == (0, fs.tree)
    ensures heap.failures == old(heap.failures) && disk.Some? && TreeOk(EMPTY) && Parse(EMPTY, disk.value).0 == 0 ==> !halted
  {
    hide FileSystem.Fs.Graph, TreeOk, Parse, FileSystem.Allocator.Valid;
    fs := new FileSystem.Fs(heap);
    var code := ParseCpioDisk(fs, disk);
    halted := code != 0;
  }
}
