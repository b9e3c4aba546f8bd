/** The CPIO "New ASCII Format" as kernel/fs/drivers/initramfs.c reads it: the meaning of
    a byte string, and what it is for the serialisation of a list of members. */
module CpioArchive {
  import opened Common
  import opened FsTree
  import opened Unpacking

  // ---------------------------------------------------------------------
  // Hexadecimal fields
  // ---------------------------------------------------------------------

  function DigitValue(c: char): (d: Option<nat>)
    ensures d.Some? ==> d.value < 16
  {
    if '0' <= c <= '9' then Some((c - '0') as nat)
    else if 'a' <= c <= 'f' then Some((c - 'a') as nat + 10)
    else if 'A' <= c <= 'F' then Some((c - 'A') as nat + 10)
    else None
  }

  function Pow16(k: nat): (r: nat)
    ensures r > 0
  {
    if k == 0 then 1 else 16 * Pow16(k - 1)
  }

  /** The number a string of hexadecimal digits stands for. */
  function Hex(s: string): (r: Option<nat>)
    ensures r.Some? ==> r.value < Pow16(|s|)
  {
    if s == "" then Some(0)
    else
      var high, low := Hex(s[..|s| - 1]), DigitValue(s[|s| - 1]);
      if high.Some? && low.Some? then Some(high.value * 16 + low.value) else None
  }

  function Digit(d: nat): (c: char)
    requires d < 16
    ensures DigitValue(c) == Some(d)
  {
    "0123456789abcdef"[d]
  }

  function HexDigits(n: nat, k: nat): (s: string)
    ensures |s| == k
  {
    if k == 0 then "" else HexDigits(n / 16, k - 1) + [Digit(n % 16)]
  }

  lemma {:induction false} HexInverts(n: nat, k: nat)
    requires n < Pow16(k)
    ensures Hex(HexDigits(n, k)) == Some(n)
  {
    hide Digit, DigitValue;
    if k > 0 {
      var s := HexDigits(n, k);
      assert s[..k - 1] == HexDigits(n / 16, k - 1) && s[k - 1] == Digit(n % 16);
      Split16(n, Pow16(k - 1));
      HexInverts(n / 16, k - 1);
    }
  }

  lemma Split16(n: nat, bound: nat)
    requires n < 16 * bound
    ensures n / 16 < bound && n / 16 * 16 + n % 16 == n && n % 16 < 16
  {
  }

  // ---------------------------------------------------------------------
  // Reading
  // ---------------------------------------------------------------------

  const MAX_PATH: nat := 4096
  const HEADER_SIZE: nat := 110
  const MAGIC := "070701"
  const TRAILER := "TRAILER!!!"

  /** The bytes from n to the next multiple of 4. */
  function Padding(n: nat): (p: nat)
    ensures p < 4 && (n + p) % 4 == 0
  {
    (4 - n % 4) % 4
  }

  datatype Header = Bad(code: int) | Trailer | File(mode: nat, name: string, start: nat, size: nat)

  function Field(s: string, i: nat): Option<nat>
    requires |s| >= HEADER_SIZE && i < 13
  {
    Hex(s[6 + 8 * i..6 + 8 * i + 8])
  }

  function ReadHeader(s: string): (h: Header)
    ensures h.File? ==> HEADER_SIZE < h.start && h.start + h.size <= |s| && '\0' !in h.name
    ensures h.Bad? ==> h.code != 0
  {
    if |s| < HEADER_SIZE then Bad(-5)
    else if s[..6] != MAGIC then Bad(-2)
    else if exists i :: 0 <= i < 13 && Field(s, i).None? then Bad(-1)
    else ReadName(s, Field(s, 1).value, Field(s, 6).value, Field(s, 11).value)
  }

  function ReadName(s: string, mode: nat, filesize: nat, namesize: nat): (h: Header)
    requires |s| >= HEADER_SIZE
    ensures h.File? ==> HEADER_SIZE < h.start && h.start + h.size <= |s| && '\0' !in h.name
    ensures h.Bad? ==> h.code != 0
  {
    if namesize == 0 || namesize > MAX_PATH + 1 || |s| - HEADER_SIZE < namesize then Bad(-3)
    else
      var end := HEADER_SIZE + namesize;
      var name := s[HEADER_SIZE..end - 1];
      if s[end - 1] != '\0' || '\0' in name then Bad(-3)
      else if |s| - end < Padding(end) then Bad(-5)
      else if name == TRAILER then Trailer
      else
        var shown := StripDots(name);
        var start := end + Padding(end);
        if shown != "" && shown[0] == '/' then Bad(-3)
        else if |s| - start < filesize then Bad(-4)
        else File(mode, shown, start, filesize)
  }

  /** The code and the tree after reading from the first byte of s on. */
  function Parse(t: Tree, s: string): (r: (int, Tree))
    requires TreeOk(t)
    ensures TreeOk(r.1)
    decreases |s|
  {
    match ReadHeader(s)
    case Bad(code) => (code, t)
    case Trailer => (0, t)
    case File(mode, name, start, size) =>
      var (code, t') := InstallEntry(t, Entry(mode, name, s[start..start + size]));
      if code != 0 then (code, t')
      else
        var next := start + size + Padding(start + size);
        if |s| < next then (-5, t') else Parse(t', s[next..])
  }

  // ---------------------------------------------------------------------
  // Writing
  // ---------------------------------------------------------------------

  /** The thirteen header fields with the name and the data they describe. */
  datatype Member = Member(fields: seq<nat>, name: string, data: string)

  ghost predicate HasHeader(m: Member) {
    && |m.fields| == 13
    && (forall i :: 0 <= i < 13 ==> m.fields[i] < 0x1_0000_0000)
    && m.fields[11] == |m.name| + 1 <= MAX_PATH + 1
    && '\0' !in m.name
  }

  ghost predicate WellFormed(m: Member) {
    && HasHeader(m)
    && m.fields[6] == |m.data|
    && m.name != TRAILER
    && (StripDots(m.name) == "" || StripDots(m.name)[0] != '/')
  }

  ghost predicate IsTrailer(m: Member) { HasHeader(m) && m.name == TRAILER }

  function Zeros(n: nat): (s: string)
    ensures |s| == n
  {
    seq(n, _ => '\0')
  }

  function FieldDigits(fields: seq<nat>): (s: string)
    ensures |s| == 8 * |fields|
  {
    if fields == [] then "" else FieldDigits(fields[..|fields| - 1]) + HexDigits(fields[|fields| - 1], 8)
  }

  /** Header, name, its NUL and padding. */
  function HeadBytes(m: Member): (s: string)
    ensures |m.fields| == 13 ==> |s| == HEADER_SIZE + |m.name| + 1 + Padding(HEADER_SIZE + |m.name| + 1)
  {
    MAGIC + FieldDigits(m.fields) + m.name + "\0" + Zeros(Padding(HEADER_SIZE + |m.name| + 1))
  }

  function MemberBytes(m: Member): (s: string)
    ensures |s| == |HeadBytes(m)| + |m.data| + Padding(|m.data|)
  {
    HeadBytes(m) + (m.data + Zeros(Padding(|m.data|)))
  }

  function Archive(ms: seq<Member>, trailer: Member): string {
    if ms == [] then HeadBytes(trailer) else MemberBytes(ms[0]) + Archive(ms[1..], trailer)
  }

  function EntryOf(m: Member): Entry
    requires |m.fields| == 13
  {
    Entry(m.fields[1], StripDots(m.name), m.data)
  }

  ghost predicate AllWellFormed(ms: seq<Member>) { ms != [] ==> WellFormed(ms[0]) && AllWellFormed(ms[1..]) }

  ghost function EntriesOf(ms: seq<Member>): (es: seq<Entry>)
    requires AllWellFormed(ms)
    ensures NoNuls(es)
  {
    if ms == [] then [] else [EntryOf(ms[0])] + EntriesOf(ms[1..])
  }

  // ---------------------------------------------------------------------
  // Reading what was written
  // ---------------------------------------------------------------------

  lemma {:induction false} FieldAt(fields: seq<nat>, i: nat)
    requires i < |fields|
    ensures FieldDigits(fields)[8 * i..8 * i + 8] == HexDigits(fields[i], 8)
  {
    var n := |fields| - 1;
    var front := FieldDigits(fields[..n]);
    if i == n {
      assert (front + HexDigits(fields[n], 8))[8 * n..8 * n + 8] == HexDigits(fields[n], 8);
    } else {
      FieldAt(fields[..n], i);
      assert (front + HexDigits(fields[n], 8))[8 * i..8 * i + 8] == front[8 * i..8 * i + 8];
    }
  }

  lemma Middle(a: string, b: string, c: string)
    ensures (a + b + c)[|a|..|a| + |b|] == b
  {
  }

  /** The header of a member, whatever follows, reads back. */
  lemma ReadFields(m: Member, rest: string)
    requires HasHeader(m)
    ensures var s := HeadBytes(m) + rest;
            && |s| >= HEADER_SIZE && s[..6] == MAGIC
            && forall i :: 0 <= i < 13 ==> Field(s, i) == Some(m.fields[i])
  {
    var s := HeadBytes(m) + rest;
    var tail := m.name + "\0" + Zeros(Padding(HEADER_SIZE + |m.name| + 1)) + rest;
    var digits := FieldDigits(m.fields);
    assert s == MAGIC + digits + tail;
    assert s[..6] == MAGIC;
    forall i | 0 <= i < 13
      ensures Field(s, i) == Some(m.fields[i])
    {
      Shifted(MAGIC, digits, tail, 8 * i, 8 * i + 8);
      FieldAt(m.fields, i);
      Pow16Of8();
      HexInverts(m.fields[i], 8);
    }
  }

  lemma Shifted(a: string, b: string, c: string, i: nat, j: nat)
    requires i <= j <= |b|
    ensures (a + b + c)[|a| + i..|a| + j] == b[i..j]
  {
  }

  lemma Pow16Of8()
    ensures Pow16(8) == 0x1_0000_0000
  {
    assert Pow16(4) == 0x1_0000;
  }

  lemma ReadHead(m: Member, rest: string)
    requires HasHeader(m)
    ensures var s := HeadBytes(m) + rest;
            |s| >= HEADER_SIZE && ReadHeader(s) == ReadName(s, m.fields[1], m.fields[6], |m.name| + 1)
    ensures var s, end := HeadBytes(m) + rest, HEADER_SIZE + |m.name| + 1;
            && |s| - end >= Padding(end) && s[HEADER_SIZE..end - 1] == m.name && s[end - 1] == '\0'
            && |HeadBytes(m)| == end + Padding(end)
  {
    hide HasHeader, Hex, Field, Padding, FieldDigits, HexDigits;
    ReadFields(m, rest);
    var s := HeadBytes(m) + rest;
    var end := HEADER_SIZE + |m.name| + 1;
    var front := MAGIC + FieldDigits(m.fields);
    var back := "\0" + Zeros(Padding(end)) + rest;
    Lengths(m);
    assert s == front + m.name + back;
    Middle(front, m.name, back);
    Shifted(front + m.name, back, "", 0, 1);
    assert back[0..1] == "\0" && front + m.name + back + "" == s;
    assert s[end - 1..end] == "\0";
  }

  lemma Lengths(m: Member)
    requires HasHeader(m)
    ensures |MAGIC + FieldDigits(m.fields)| == HEADER_SIZE && |m.fields| == 13 && m.fields[11] == |m.name| + 1
  {
  }

  lemma ReadTrailer(m: Member, rest: string)
    requires IsTrailer(m)
    ensures ReadHeader(HeadBytes(m) + rest) == Trailer
  {
    hide HasHeader, Hex, Field, Padding, HeadBytes, ReadHeader;
    Lengths(m);
    TrailerSize(m);
    ReadHead(m, rest);
  }

  lemma TrailerSize(m: Member)
    requires HasHeader(m)
    ensures |m.name| <= MAX_PATH && '\0' !in m.name
  {
  }

  /** A member, whatever follows, reads back, and what follows comes next. */
  lemma ReadMember(m: Member, rest: string)
    requires WellFormed(m)
    ensures var s := MemberBytes(m) + rest;
            && |m.fields| == 13
            && ReadHeader(s) == File(m.fields[1], StripDots(m.name), |HeadBytes(m)|, |m.data|)
            && var start, size := |HeadBytes(m)|, |m.data|;
            && s[start..start + size] == m.data
            && Padding(start + size) == Padding(size)
            && s[start + size + Padding(size)..] == rest
  {
    hide HasHeader, Hex, Field, Padding, HeadBytes, ReadHeader, StripDots, Zeros;
    Lengths(m);
    TrailerSize(m);
    var head, pad := HeadBytes(m), Zeros(Padding(|m.data|));
    Parts(head, m.data, pad, rest);
    ReadHead(m, m.data + pad + rest);
    SamePadding(|head|, |m.data|, HEADER_SIZE + |m.name| + 1);
  }

  lemma Parts(head: string, data: string, pad: string, rest: string)
    ensures head + (data + pad) + rest == head + (data + pad + rest)
    ensures var s := head + (data + pad) + rest;
            && s[|head|..|head| + |data|] == data
            && |s| == |head| + |data| + |pad| + |rest|
            && s[|head| + |data| + |pad|..] == rest
  {
    Middle(head, data, pad + rest);
    assert head + (data + pad) + rest == head + data + (pad + rest);
  }

  lemma SamePadding(start: nat, size: nat, end: nat)
    requires start == end + Padding(end)
    ensures Padding(start + size) == Padding(size)
  {
    var k := start / 4;
    assert start == 4 * k;
    SameRemainder(k, size);
  }

  lemma SameRemainder(k: nat, size: nat)
    ensures (4 * k + size) % 4 == size % 4
  {
  }

  /** Reading a serialised archive, whatever follows it, unpacks its members. */
  lemma {:induction false} RoundTrip(t: Tree, ms: seq<Member>, trailer: Member, rest: string)
    requires TreeOk(t) && AllWellFormed(ms) && IsTrailer(trailer)
    ensures Parse(t, Archive(ms, trailer) + rest) == Unpack(t, EntriesOf(ms))
    decreases |ms|
  {
    hide TreeOk, InstallEntry, HeadBytes, MemberBytes, ReadHeader, Padding, WellFormed, IsTrailer, Grows;
    if ms == [] {
      ReadTrailer(trailer, rest);
    } else {
      var tail := Archive(ms[1..], trailer) + rest;
      assert Archive(ms, trailer) + rest == MemberBytes(ms[0]) + tail;
      ReadMember(ms[0], tail);
      Unpack1(t, ms);
      var (code, t') := InstallEntry(t, EntryOf(ms[0]));
      if code == 0 {
        RoundTrip(t', ms[1..], trailer, rest);
      }
    }
  }

  lemma Unpack1(t: Tree, ms: seq<Member>)
    requires TreeOk(t) && AllWellFormed(ms) && ms != []
    ensures |ms[0].fields| == 13 && '\0' !in StripDots(ms[0].name)
    ensures Unpack(t, EntriesOf(ms)) ==
            var (code, t') := InstallEntry(t, EntryOf(ms[0]));
            if code != 0 then (code, t') else Unpack(t', EntriesOf(ms[1..]))
  {
    assert ([EntryOf(ms[0])] + EntriesOf(ms[1..]))[1..] == EntriesOf(ms[1..]);
  }

  /** The whole law: a serialised archive reads as 0 exactly if every member can have its
      node, and then the tree is the one with those nodes. */
  lemma ArchiveExtracts(t: Tree, ms: seq<Member>, trailer: Member, rest: string)
    requires TreeOk(t) && AllWellFormed(ms) && IsTrailer(trailer)
    ensures t.kids.Keys == t.items.Keys && Root in t.items
    ensures Parse(t, Archive(ms, trailer) + rest).0 == 0 <==> Extract(t, EntriesOf(ms)).Some?
    ensures Extract(t, EntriesOf(ms)).Some? ==>
              Parse(t, Archive(ms, trailer) + rest).1 == Extract(t, EntriesOf(ms)).value
  {
    hide TreeOk, Parse, Unpack, Extract, IsTrailer, AllWellFormed, EntriesOf;
    RoundTrip(t, ms, trailer, rest);
    UnpackMeaning(t, EntriesOf(ms));
  }

  // ---------------------------------------------------------------------
  // The format in plain numbers
  // ---------------------------------------------------------------------

  /** The ten digits, the six letters in either case, and no other character. */
  lemma DigitsPlain(c: char)
    ensures DigitValue(c).Some? <==> c in "0123456789" || c in "abcdef" || c in "ABCDEF"
    ensures c in "0123456789" ==> DigitValue(c) == Some(c as int - 48)
    ensures c in "abcdef" ==> DigitValue(c) == Some(c as int - 97 + 10)
    ensures c in "ABCDEF" ==> DigitValue(c) == Some(c as int - 65 + 10)
  {
    assert c in "0123456789" <==> '0' <= c <= '9';
    assert c in "abcdef" <==> 'a' <= c <= 'f';
    assert c in "ABCDEF" <==> 'A' <= c <= 'F';
  }

  /** Each further digit counts for one and moves the others up. */
  lemma HexPlain(s: string, c: char)
    ensures Hex("") == Some(0)
    ensures Hex(s + [c]) ==
            if Hex(s).Some? && DigitValue(c).Some? then Some(16 * Hex(s).value + DigitValue(c).value) else None
  {
    assert (s + [c])[..|s|] == s;
  }

  /** The text of field i: eight characters each, behind the magic. */
  function FieldText(s: string, i: nat): string
    requires |s| >= 110 && i < 13
  {
    s[6 + 8 * i..14 + 8 * i]
  }

  /** 110 bytes of header: the magic and thirteen fields of eight digits. */
  ghost predicate PlainHeader(s: string) {
    && |s| >= 110 && s[..6] == "070701"
    && forall i :: 0 <= i < 13 ==> Hex(FieldText(s, i)).Some?
  }

  /** What is refused before the name: too few bytes, another format, a field with another character. */
  lemma HeaderRefused(t: Tree, s: string)
    requires TreeOk(t)
    ensures |s| < 110 ==> Parse(t, s) == (-5, t)
    ensures |s| >= 110 && s[..6] != "070701" ==> Parse(t, s) == (-2, t)
    ensures |s| >= 110 && s[..6] == "070701" && !PlainHeader(s) ==> Parse(t, s) == (-1, t)
    ensures PlainHeader(s) ==>
              var mode, size, nameSize := Hex(s[14..22]), Hex(s[54..62]), Hex(s[94..102]);
              && mode.Some? && size.Some? && nameSize.Some?
              && ReadHeader(s) == ReadName(s, mode.value, size.value, nameSize.value)
  {
    hide Hex, ReadName;
    if |s| >= 110 {
      if PlainHeader(s) {
        forall i | 0 <= i < 13
          ensures Field(s, i).Some?
        {
          assert Field(s, i) == Hex(FieldText(s, i));
        }
      } else if s[..6] == "070701" {
        var i :| 0 <= i < 13 && Hex(FieldText(s, i)).None?;
        assert Field(s, i).None?;
      }
      assert Field(s, 1) == Hex(s[14..22]) && Field(s, 6) == Hex(s[54..62]) && Field(s, 11) == Hex(s[94..102]);
    }
  }

  /** What is refused behind a good header: a name of no bytes, of more than 4097 or of more than
      are left; one that does not end with its only NUL, or without its padding; a name that
      still starts with a slash; contents of more bytes than are left. The name TRAILER!!! ends. */
  lemma NameRefused(t: Tree, s: string, size: nat, n: nat)
    requires TreeOk(t) && PlainHeader(s) && Hex(s[54..62]) == Some(size) && Hex(s[94..102]) == Some(n)
    ensures n == 0 || n > 4097 || 110 + n > |s| ==> Parse(t, s) == (-3, t)
    ensures 0 < n <= 4097 && 110 + n <= |s| ==>
              var name, start := s[110..109 + n], (110 + n + 3) / 4 * 4;
              if s[109 + n] != '\0' || '\0' in name then Parse(t, s) == (-3, t)
              else if start > |s| then Parse(t, s) == (-5, t)
              else if name == "TRAILER!!!" then Parse(t, s) == (0, t)
              else if StripDots(name) != "" && StripDots(name)[0] == '/' then Parse(t, s) == (-3, t)
              else start + size > |s| ==> Parse(t, s) == (-4, t)
  {
    hide Hex, StripDots, ReadHeader, ReadName, Parse, InstallEntry, TreeOk, Grows;
    HeaderRefused(t, s);
    ParseBad(t, s);
    var mode := Hex(s[14..22]).value;
    if n == 0 || n > 4097 || 110 + n > |s| {
      NoName(s, mode, size, n);
    } else {
      BadName(s, mode, size, n, s[110..109 + n]);
    }
  }

  lemma NoName(s: string, mode: nat, size: nat, n: nat)
    requires |s| >= 110 && (n == 0 || n > 4097 || 110 + n > |s|)
    ensures ReadName(s, mode, size, n) == Bad(-3)
  {
    hide StripDots, Padding;
  }

  lemma BadName(s: string, mode: nat, size: nat, n: nat, name: string)
    requires |s| >= 110 && 0 < n <= 4097 && 110 + n <= |s| && s[110..109 + n] == name
    ensures var h, start := ReadName(s, mode, size, n), (110 + n + 3) / 4 * 4;
            if s[109 + n] != '\0' || '\0' in name then h == Bad(-3)
            else if start > |s| then h == Bad(-5)
            else if name == "TRAILER!!!" then h == Trailer
            else if StripDots(name) != "" && StripDots(name)[0] == '/' then h == Bad(-3)
            else start + size > |s| ==> h == Bad(-4)
  {
    hide StripDots, Padding;
    UpToFour(110 + n);
  }

  lemma ParseBad(t: Tree, s: string)
    requires TreeOk(t)
    ensures ReadHeader(s).Bad? ==> Parse(t, s) == (ReadHeader(s).code, t)
    ensures ReadHeader(s).Trailer? ==> Parse(t, s) == (0, t)
  {
    hide TreeOk, ReadHeader, InstallEntry, Grows;
  }

  lemma UpToFour(n: nat)
    ensures n + Padding(n) == (n + 3) / 4 * 4
  {
  }

  /** The n bytes behind the header are the name and its only NUL; it is not the trailer's and
      does not start with a slash behind leading "./". */
  ghost predicate PlainName(s: string, n: nat, name: string) {
    && 0 < n && 110 + n <= |s| && s[110..109 + n] == name && s[109 + n] == '\0' && '\0' !in name
    && name != "TRAILER!!!" && (StripDots(name) == "" || StripDots(name)[0] != '/')
  }

  /** What happens to any other member: one entry with the mode of bytes 14 to 21, the name
      without leading "./" and the contents from the next multiple of 4 on; after a failure
      its code, else whatever follows at the multiple of 4 behind the contents. */
  lemma MemberRead(t: Tree, s: string, mode: nat, size: nat, n: nat, name: string, start: nat, next: nat,
                   code: int, t': Tree)
    requires TreeOk(t) && PlainHeader(s)
    requires Hex(s[14..22]) == Some(mode) && Hex(s[54..62]) == Some(size) && Hex(s[94..102]) == Some(n)
    requires 0 < n <= 4097 && start % 4 == 0 && 110 + n <= start < 110 + n + 4 && start + size <= |s|
    requires next % 4 == 0 && start + size <= next < start + size + 4
    requires PlainName(s, n, name)
    requires (code, t') == InstallEntry(t, Entry(mode, StripDots(name), s[start..start + size]))
    ensures TreeOk(t')
    ensures code != 0 ==> Parse(t, s) == (code, t')
    ensures code == 0 && next > |s| ==> Parse(t, s) == (-5, t')
    ensures code == 0 && next <= |s| ==> Parse(t, s) == Parse(t', s[next..])
  {
    hide Parse, InstallEntry, TreeOk, Grows, Hex, StripDots, PlainHeader, PlainName, ReadHeader, ReadName, Padding;
    MemberHeader(t, s, mode, size, n, name, start);
    NextFour(start + size, next);
    ParseFile(t, s, mode, StripDots(name), start, size, next, code, t');
  }

  lemma NextFour(n: nat, m: nat)
    requires m % 4 == 0 && n <= m < n + 4
    ensures m == n + Padding(n)
  {
  }

  lemma MemberHeader(t: Tree, s: string, mode: nat, size: nat, n: nat, name: string, start: nat)
    requires TreeOk(t) && PlainHeader(s)
    requires Hex(s[14..22]) == Some(mode) && Hex(s[54..62]) == Some(size) && Hex(s[94..102]) == Some(n)
    requires 0 < n <= 4097 && start % 4 == 0 && 110 + n <= start < 110 + n + 4 && start + size <= |s|
    requires PlainName(s, n, name)
    ensures ReadHeader(s) == File(mode, StripDots(name), start, size)
  {
    hide *;
    HeaderRefused(t, s);
    NameRead(s, mode, size, n, name, start);
  }

  lemma ParseFile(t: Tree, s: string, mode: nat, name: string, start: nat, size: nat, next: nat, code: int, t': Tree)
    requires TreeOk(t) && ReadHeader(s) == File(mode, name, start, size) && next == start + size + Padding(start + size)
    requires (code, t') == InstallEntry(t, Entry(mode, name, s[start..start + size]))
    ensures TreeOk(t')
    ensures code != 0 ==> Parse(t, s) == (code, t')
    ensures code == 0 && next > |s| ==> Parse(t, s) == (-5, t')
    ensures code == 0 && next <= |s| ==> Parse(t, s) == Parse(t', s[next..])
  {
    hide *;
    if code != 0 || next > |s| {
      ParseStops(t, s, mode, name, start, size, next, code, t');
    } else {
      ParseGoesOn(t, s, mode, name, start, size, next, t');
    }
  }

  lemma ParseStops(t: Tree, s: string, mode: nat, name: string, start: nat, size: nat, next: nat, code: int, t': Tree)
    requires TreeOk(t) && ReadHeader(s) == File(mode, name, start, size) && next == start + size + Padding(start + size)
    requires (code, t') == InstallEntry(t, Entry(mode, name, s[start..start + size]))
    requires code != 0 || next > |s|
    ensures Parse(t, s) == (if code != 0 then code else -5, t')
  {
    hide TreeOk, ReadHeader, Padding, InstallEntry, Grows, StripDots;
  }

  lemma ParseGoesOn(t: Tree, s: string, mode: nat, name: string, start: nat, size: nat, next: nat, t': Tree)
    requires TreeOk(t) && ReadHeader(s) == File(mode, name, start, size) && next == start + size + Padding(start + size)
    requires (0, t') == InstallEntry(t, Entry(mode, name, s[start..start + size])) && next <= |s|
    ensures TreeOk(t') && Parse(t, s) == Parse(t', s[next..])
  {
    hide TreeOk, ReadHeader, Padding, InstallEntry, Grows, StripDots;
  }

  lemma NameRead(s: string, mode: nat, size: nat, n: nat, name: string, start: nat)
    requires |s| >= 110 && 0 < n <= 4097 && start % 4 == 0 && 110 + n <= start < 110 + n + 4 && start + size <= |s|
    requires PlainName(s, n, name)
    ensures ReadName(s, mode, size, n) == File(mode, StripDots(name), start, size)
  {
    hide StripDots, Padding;
    NextFour(110 + n, start);
  }

  // ---------------------------------------------------------------------
  // What a serialised archive makes, in plain numbers
  // ---------------------------------------------------------------------

  /** Which members count as well formed. */
  lemma WellFormedPlain(m: Member)
    ensures WellFormed(m) <==>
            && |m.fields| == 13 && (forall i :: 0 <= i < 13 ==> m.fields[i] < 0x1_0000_0000)
            && m.fields[6] == |m.data| && m.fields[11] == |m.name| + 1 <= 4097
            && '\0' !in m.name && m.name != "TRAILER!!!"
            && (StripDots(m.name) == "" || StripDots(m.name)[0] != '/')
  {
  }

  /** Where the parts of a written member are: the magic, the fields in eight digits each, the
      name and its NUL, the contents at the next multiple of 4. */
  lemma MemberLayout(m: Member, rest: string)
    requires WellFormed(m)
    ensures var s, start := MemberBytes(m) + rest, (110 + |m.name| + 1 + 3) / 4 * 4;
            && PlainHeader(s) && |m.fields| == 13
            && (forall i :: 0 <= i < 13 ==> Hex(FieldText(s, i)) == Some(m.fields[i]))
            && |s| >= start + |m.data|
            && s[110..110 + |m.name|] == m.name && s[110 + |m.name|] == '\0'
            && s[start..start + |m.data|] == m.data
            && |MemberBytes(m)| == (start + |m.data| + 3) / 4 * 4
  {
    hide Hex, Padding, HeadBytes, ReadHeader, StripDots, Zeros, FieldDigits, Field;
    var pad := Zeros(Padding(|m.data|));
    Parts(HeadBytes(m), m.data, pad, rest);
    var s := HeadBytes(m) + (m.data + pad + rest);
    assert MemberBytes(m) + rest == s;
    FieldsPlain(m, m.data + pad + rest);
    ReadHead(m, m.data + pad + rest);
    UpToFour(110 + |m.name| + 1);
    SamePadding(|HeadBytes(m)|, |m.data|, 110 + |m.name| + 1);
    UpToFour(|HeadBytes(m)| + |m.data|);
  }

  lemma FieldsPlain(m: Member, rest: string)
    requires HasHeader(m)
    ensures var s := HeadBytes(m) + rest;
            && PlainHeader(s) && |m.fields| == 13
            && forall i :: 0 <= i < 13 ==> Hex(FieldText(s, i)) == Some(m.fields[i])
  {
    hide Hex, HeadBytes;
    ReadFields(m, rest);
    var s := HeadBytes(m) + rest;
    forall i | 0 <= i < 13
      ensures Hex(FieldText(s, i)) == Some(m.fields[i])
    {
      assert Field(s, i) == Some(m.fields[i]);
    }
  }

  lemma {:induction false} PrefixEntries(ms: seq<Member>, n: nat)
    requires AllWellFormed(ms) && n <= |ms|
    ensures AllWellFormed(ms[..n]) && |EntriesOf(ms)| == |ms| && EntriesOf(ms[..n]) == EntriesOf(ms)[..n]
    ensures n < |ms| ==> |ms[n].fields| == 13 && EntriesOf(ms)[n] == EntryOf(ms[n])
    decreases |ms|
  {
    hide StripDots;
    if ms != [] {
      if n == 0 {
        PrefixEntries(ms[1..], 0);
      } else {
        assert ms[..n][1..] == ms[1..][..n - 1] && ms[..n][0] == ms[0];
        PrefixEntries(ms[1..], n - 1);
      }
    }
  }

  /** Member i of an archive that reads as 0, when its name is the path of the place p: a mode with
      4 in bits 12 to 15 makes a directory there and 8, 10 or 0 a file with the member's contents,
      unless an earlier member or the tree before had put a node there; any other mode makes nothing. */
  lemma MemberMade(t: Tree, ms: seq<Member>, trailer: Member, rest: string, i: nat, p: Place)
    requires TreeOk(t) && AllWellFormed(ms) && IsTrailer(trailer) && i < |ms| && |ms[i].fields| == 13
    requires p.Kid? && GoodPlace(p) && "/" + ms[i].name == PathOf(p)
    requires Parse(t, Archive(ms, trailer) + rest).0 == 0
    ensures Parse(t, Archive(ms[..i], trailer) + rest).0 == 0
    ensures var before, final := Parse(t, Archive(ms[..i], trailer) + rest).1, Parse(t, Archive(ms, trailer) + rest).1;
            var mode := ms[i].fields[1] / 0x1000 % 16;
            if mode in {0, 4, 8, 10} then
              && ParsePath(final, PathOf(p)) == Node(p)
              && final.items[p] == if p in before.items then before.items[p]
                                   else if mode == 4 then Item(1, "")
                                   else Item(0, ms[i].data)
            else
              Parse(t, Archive(ms[..i + 1], trailer) + rest) == (0, before)
  {
    hide TreeOk, Parse, Extract, TargetOf, IsTrailer, AllWellFormed, EntriesOf, PathOf, GoodPlace, Archive, ParsePath,
         StripDots;
    PrefixEntries(ms, i);
    PrefixEntries(ms, i + 1);
    ArchiveExtracts(t, ms, trailer, rest);
    ArchiveExtracts(t, ms[..i], trailer, rest);
    ArchiveExtracts(t, ms[..i + 1], trailer, rest);
    PlaceOfPath(ms[i].name, p);
    NamesTrimmed(ms[i].name);
    TargetByMode(EntriesOf(ms)[i], p);
    if ms[i].fields[1] / 0x1000 % 16 in {0, 4, 8, 10} {
      FirstWriterWins(t, EntriesOf(ms), i);
    } else {
      NothingAdded(t, EntriesOf(ms), i);
    }
  }

  /** The smallest archives: one member with an ordinary name, on the tree init_fs starts with. */
  lemma OneMember(m: Member, trailer: Member, rest: string)
    requires WellFormed(m) && IsTrailer(trailer) && |m.fields| == 13
    requires m.name != "" && '/' !in m.name && m.name != "." && m.name != ".."
    ensures TreeOk(EMPTY) && EMPTY.items == map[Root := Item(1, "")]
    ensures var (code, t') := Parse(EMPTY, Archive([m], trailer) + rest);
            && code == 0
            && t'.items == match m.fields[1] / 0x1000 % 16
                           case 4 => map[Root := Item(1, ""), Kid(Root, m.name) := Item(1, "")]
                           case 8 => map[Root := Item(1, ""), Kid(Root, m.name) := Item(0, m.data)]
                           case 10 => map[Root := Item(1, ""), Kid(Root, m.name) := Item(0, m.data)]
                           case 0 => map[Root := Item(1, ""), Kid(Root, m.name) := Item(0, m.data)]
                           case _ => map[Root := Item(1, "")]
  {
    hide Parse, Unpack, IsTrailer, Archive, TargetOf, StripDots, WellFormed, HasHeader;
    EmptyOk();
    assert AllWellFormed([m]);
    ArchiveExtracts(EMPTY, [m], trailer, rest);
    var p := Kid(Root, m.name);
    assert PathOf(p) == "/" + m.name;
    NoNulName(m);
    PlaceOfPath(m.name, p);
    NamesTrimmed(m.name);
    var e := EntryOf(m);
    assert EntriesOf([m]) == [e];
    TargetByMode(e, p);
    ExtractOne(EMPTY, e);
    if TargetOf(e).At? {
      MakeBelowRoot(EMPTY, m.name, TargetOf(e).item);
    }
  }

  lemma NoNulName(m: Member)
    requires WellFormed(m)
    ensures '\0' !in m.name
  {
  }

  lemma ExtractOne(t: Tree, e: Entry)
    requires t.kids.Keys == t.items.Keys && Root in t.items
    ensures TargetOf(e).Nothing? ==> Extract(t, [e]) == Some(t)
    ensures TargetOf(e).At? && !Obstructed(t, TargetOf(e).place) ==>
              Extract(t, [e]) == Some(Make(t, TargetOf(e).place, TargetOf(e).item))
  {
    hide TargetOf, Obstructed, Make;
    assert [e][1..] == [];
  }

  lemma EmptyOk()
    ensures TreeOk(EMPTY)
  {
  }
}
