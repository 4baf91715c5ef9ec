/** The 32-byte entries of a directory (the "FAT Directory Structure" section of Microsoft's
    FAT File System Specification) and their names, as kernel/fat.c makes them up. */
module DirectoryEntries {
  import opened Arithmetic
  import opened MachineWords
  import opened Options
  import opened ByteStrings
  import opened CStrings

  const SPACE: u8 := 32
  const DOT: u8 := 46

  type Entry = e: Bytes | |e| == 32 witness Filled(32, 0)

  predicate IsDirectory(e: Entry) {
    e[11] / 0x10 % 2 == 1
  }

  function ClusterOf(e: Entry): u16 {
    var low: int, high: int := e[26], e[27];
    low + 0x100 * high
  }

  /** The fields of an entry. The attributes are bits, read-only first; the times and dates, which
      nobody reads, are the bytes that they are. */
  datatype Fields = Fields(name: Bytes, extension: Bytes, readOnly: bool, hidden: bool, system: bool,
                           volumeName: bool, directory: bool, archive: bool, reserved: nat,
                           other: Bytes, cluster: u16, filesize: u32) {
    predicate Sized() {
      |name| == 8 && |extension| == 3 && reserved < 4 && |other| == 14
    }
  }

  function Flag(on: bool, weight: u8): u8 {
    if on then weight else 0
  }

  function Attributes(x: Fields): u8
    requires x.reserved < 4
  {
    var bits: int := Flag(x.readOnly, 0x01) + Flag(x.hidden, 0x02) + Flag(x.system, 0x04) + Flag(x.volumeName, 0x08)
                     + Flag(x.directory, 0x10) + Flag(x.archive, 0x20) + 0x40 * x.reserved;
    bits
  }

  /** The 32 bytes of an entry, field after field; numbers with their low byte first. */
  function LaidOut(x: Fields): Entry
    requires x.Sized()
  {
    x.name + x.extension + [Attributes(x)] + x.other
    + [x.cluster % 0x100, x.cluster / 0x100]
    + [x.filesize % 0x100, x.filesize / 0x100 % 0x100, x.filesize / 0x1_0000 % 0x100, x.filesize / 0x100_0000]
  }

  /** What is read out of an entry is what was put in. */
  lemma ReadsFields(x: Fields)
    requires x.Sized()
    ensures ClusterOf(LaidOut(x)) == x.cluster && (IsDirectory(LaidOut(x)) <==> x.directory)
    ensures LaidOut(x)[..8] == x.name && LaidOut(x)[8..11] == x.extension
    ensures EntryName(LaidOut(x)) == ShownName(x.name, x.extension)
  {
    var e := LaidOut(x);
    DirectoryBit(x);
    assert e[..8] == x.name && e[8..11] == x.extension && e[11] == Attributes(x);
    assert Clean(e)[..8] == Blanked(x.name) && Clean(e)[8..11] == Blanked(x.extension);
  }

  lemma DirectoryBit(x: Fields)
    requires x.reserved < 4
    ensures Attributes(x) / 0x10 % 2 == 1 <==> x.directory
  {
    var low: int := Flag(x.readOnly, 0x01) + Flag(x.hidden, 0x02) + Flag(x.system, 0x04) + Flag(x.volumeName, 0x08);
    var high: int := Flag(x.archive, 0x20) + 0x40 * x.reserved;
    var q := Flag(x.archive, 1) + 2 * x.reserved;
    assert 0 <= low < 0x10 && high == 0x20 * q;
    DivUnique(Attributes(x), 0x10, 2 * q + Flag(x.directory, 1), low);
    DivUnique(Attributes(x) / 0x10, 2, q, Flag(x.directory, 1));
  }

  /** A field with NULs for its blanks. */
  function Blanked(s: Bytes): (r: Bytes)
    ensures |r| == |s| && forall i :: 0 <= i < |s| ==> r[i] == if s[i] == 0x20 then 0 else s[i]
  {
    seq(|s|, i requires 0 <= i < |s| => if s[i] == 0x20 then 0 else s[i])
  }

  /** The name that a user knows the fields by. */
  function ShownName(name: Bytes, extension: Bytes): Bytes {
    var base, ext := Text(Blanked(name)), Text(Blanked(extension));
    if ext == [] then base else base + [0x2E] + ext
  }

  /** The blanks of the name and of the extension made NULs. */
  function Clean(raw: Bytes): (r: Bytes)
    requires |raw| >= 11
    ensures |r| == |raw|
    ensures forall i :: 0 <= i < |raw| ==> r[i] == if i < 11 && raw[i] == SPACE then 0 else raw[i]
  {
    seq(|raw|, i requires 0 <= i < |raw| => if i < 11 && raw[i] == SPACE then 0 else raw[i])
  }

  function Base(clean: Bytes): (t: Bytes)
    requires |clean| >= 11
    ensures |t| <= 8
  {
    Text(clean[..8])
  }

  function Extension(clean: Bytes): (t: Bytes)
    requires |clean| >= 11
    ensures |t| <= 3
  {
    Text(clean[8..11])
  }

  /** The name as a user writes it. */
  function Joined(base: Bytes, ext: Bytes): Bytes {
    if ext == [] then base else base + [DOT] + ext
  }

  function EntryName(e: Entry): Bytes {
    Joined(Base(Clean(e)), Extension(Clean(e)))
  }

  method CleanEntry(entry: array<u8>)
    requires entry.Length >= 11
    modifies entry
    ensures entry[..] == Clean(old(entry[..]))
  {
    ghost var was := entry[..];
    for i := 0 to 8
      invariant forall j :: 0 <= j < entry.Length ==> entry[j] == if j < i && was[j] == SPACE then 0 else was[j]
    {
      if entry[i] == SPACE {
        entry[i] := 0;
      }
    }
    for i := 0 to 3
      invariant forall j :: 0 <= j < entry.Length ==> entry[j] == if j < 8 + i && was[j] == SPACE then 0 else was[j]
    {
      if entry[8 + i] == SPACE {
        entry[8 + i] := 0;
      }
    }
  }

  // ------------------------------------------------------------ formatting

  /** Where the zeros that are meant to fill up a field of the 13-byte buffer fall behind it. */
  predicate ClearedBehind(i: int, base: Bytes, ext: Bytes) {
    (i == 13 && (|base| == 6 || (|base| == 8 && |ext| == 2))) || (i == 14 && |base| == 7)
  }

  /** What format_entry leaves in its buffer and behind it. */
  function Formatted(s: Bytes, base: Bytes, ext: Bytes): (r: Bytes)
    requires |s| >= 15 && |base| <= 8 && |ext| <= 3
    ensures |r| == |s|
    ensures |Joined(base, ext)| <= 12
    ensures forall i :: 0 <= i < |s| ==> r[i] == (if i < |Joined(base, ext)| then Joined(base, ext)[i]
                                                  else if i < 13 || ClearedBehind(i, base, ext) then 0 else s[i])
  {
    var name := Joined(base, ext);
    seq(|s|, i requires 0 <= i < |s| =>
      if i < |name| then name[i] else if i < 13 || ClearedBehind(i, base, ext) then 0 else s[i])
  }

  /** The 13 bytes hold the name and end it. */
  lemma FormattedText(s: Bytes, base: Bytes, ext: Bytes)
    requires |s| >= 15 && |base| <= 8 && |ext| <= 3 && 0 !in base && 0 !in ext
    ensures 0 in Formatted(s, base, ext) && Text(Formatted(s, base, ext)) == Joined(base, ext)
  {
    var r, name := Formatted(s, base, ext), Joined(base, ext);
    assert r[|name|] == 0;
    assert r[..|name|] == name;
    TextIs(r, name);
  }

  ghost predicate KeepsBehind(base: Bytes, ext: Bytes)
    requires |base| <= 8 && |ext| <= 3
  {
    forall s: Bytes, i :: |s| >= 15 && 13 <= i < |s| ==> Formatted(s, base, ext)[i] == s[i]
  }

  /** format_entry writes no byte behind its buffer exactly for these lengths. */
  lemma StaysInBuffer(base: Bytes, ext: Bytes)
    requires |base| <= 8 && |ext| <= 3
    ensures KeepsBehind(base, ext) <==> |base| != 6 && |base| != 7 && !(|base| == 8 && |ext| == 2)
  {
    if ClearedBehind(13, base, ext) || ClearedBehind(14, base, ext) {
      var s: Bytes := seq(15, _ => 1);
      assert s[13] == 1 && s[14] == 1;
      hide Joined;
      assert Formatted(s, base, ext)[13] == 0 || Formatted(s, base, ext)[14] == 0;
    }
  }

  lemma AfterBase(s: Bytes, base: Bytes)
    requires |s| >= 15 && |base| <= 8
    ensures Padded(Overwrite(s, 0, Filled(13, 0)), 0, base, 8) == Formatted(s, base, [])
  {
    var z := Overwrite(s, 0, Filled(13, 0));
    var p, r := Padded(z, 0, base, 8), Formatted(s, base, []);
    assert |p| == |r| && forall i :: 0 <= i < |p| ==> p[i] == r[i];
  }

  lemma AfterDot(s: Bytes, base: Bytes)
    requires |s| >= 15 && |base| <= 8
    ensures var f, d := Formatted(s, base, []), Pasted(Formatted(s, base, []), |base|, [DOT]);
      && |d| == |f| && (forall i :: 0 <= i < |d| ==> d[i] == if i == |base| then DOT else f[i])
      && (forall i :: 0 <= i <= |base| ==> d[i] == (base + [DOT])[i]) && d[|base| + 1] == 0
  {
    NoDotYet(base);
    hide Joined, ClearedBehind;
  }

  lemma AfterExtension(s: Bytes, base: Bytes, ext: Bytes, d: Bytes)
    requires |s| >= 15 && |base| <= 8 && 0 < |ext| <= 3
    requires var f := Formatted(s, base, []);
      |d| == |f| && forall i :: 0 <= i < |d| ==> d[i] == if i == |base| then DOT else f[i]
    ensures Padded(d, |base| + 1, ext, 3) == Formatted(s, base, ext)
  {
    NoDotYet(base);
    var p, r, n := Padded(d, |base| + 1, ext, 3), Formatted(s, base, ext), |base| + 1;
    assert Joined(base, ext) == base + [DOT] + ext;
    hide Padded, Formatted, Joined, Text;
    PaddedAt(d, n, ext, 3);
    assert |p| == |r| && forall i :: 0 <= i < |p| ==> p[i] == r[i];
  }

  /** `format_entry`: entry is the bytes from a directory entry on, which hold a NUL. */
  method FormatEntry(entry: Bytes, buf: array<u8>)
    requires |entry| >= 32 && 0 in entry[8..] && buf.Length >= 15
    modifies buf
    ensures buf[..] == Formatted(old(buf[..]), Base(entry), Extension(entry))
    ensures 0 in buf[..] && Text(buf[..]) == Joined(Base(entry), Extension(entry))
  {
    hide Text, Base, Extension, Formatted, Padded, Pasted, Joined, Overwrite;
    ghost var was, base, ext := buf[..], Base(entry), Extension(entry);
    assert entry == entry[..8] + entry[8..];
    NameParts(entry);
    Memset(buf, 0, 0, 13);
    Strncpy(buf, 0, entry, 8);
    AfterBase(was, base);
    FormattedText(was, base, ext);
    if entry[8] != 0 {
      AddExtension(entry[8..], buf, was, base);
    }
  }

  /** The last two calls of format_entry. */
  method AddExtension(extension: Bytes, buf: array<u8>, ghost s: Bytes, ghost base: Bytes)
    requires |s| == buf.Length >= 15 && |base| <= 8 && 0 !in base && buf[..] == Formatted(s, base, [])
    requires 0 in extension && extension[0] != 0
    modifies buf
    ensures buf[..] == Formatted(s, base, Text(extension)[..Min(|Text(extension)|, 3)])
  {
    hide Text, Base, Extension, Formatted, Padded, Pasted, Joined, Overwrite;
    ghost var ext := Text(extension)[..Min(|Text(extension)|, 3)];
    JustDot();
    FormattedText(s, base, []);
    NoDotYet(base);
    AfterDot(s, base);
    assert buf[0..] == buf[..];
    Strcat(buf, 0, [DOT, 0]);
    ghost var d := buf[..];
    WithDot(d, base);
    assert buf[0..] == d;
    AfterExtension(s, base, ext, d);
    Strncat(buf, 0, extension, 3);
  }

  lemma NameParts(entry: Bytes)
    requires |entry| >= 11
    ensures Base(entry) == Text(entry)[..Min(|Text(entry)|, 8)]
    ensures Extension(entry) == Text(entry[8..])[..Min(|Text(entry[8..])|, 3)]
    ensures entry[8] == 0 <==> Extension(entry) == []
    ensures 0 !in Base(entry) && 0 !in Extension(entry)
  {
    TextCut(entry, 8);
    TextCut(entry[8..], 3);
    assert entry[8..][..3] == entry[8..11];
  }

  lemma JustDot()
    ensures Text([DOT, 0]) == [DOT]
  {
    TextIs([DOT, 0], [DOT]);
  }

  lemma NoDotYet(base: Bytes)
    ensures Joined(base, []) == base
  {
  }

  lemma WithDot(d: Bytes, base: Bytes)
    requires |base| + 1 < |d| && 0 !in base && d[|base| + 1] == 0
    requires forall i :: 0 <= i <= |base| ==> d[i] == (base + [DOT])[i]
    ensures 0 in d && Text(d) == base + [DOT]
  {
    assert d[..|base| + 1] == base + [DOT];
    TextIs(d, base + [DOT]);
  }

  // ---------------------------------------------------- names are unambiguous

  function Spaces(n: nat): Bytes {
    Filled(n, SPACE)
  }

  /** A short name as the specification has it: a name of up to 8 characters and an
      extension of up to 3, neither with a dot in it, each filled up with blanks; or one of
      the two special entries. */
  ghost predicate ShortName(e: Entry) {
    var base, ext := Base(Clean(e)), Extension(Clean(e));
    || e[..11] == [DOT] + Spaces(10)
    || e[..11] == [DOT, DOT] + Spaces(9)
    || (base != [] && DOT !in base && DOT !in ext
        && e[..11] == base + Spaces(8 - |base|) + ext + Spaces(3 - |ext|))
  }

  /** The part before the first dot. */
  function BeforeDot(s: Bytes): (t: Bytes)
    ensures |t| <= |s|
  {
    if s == [] || s[0] == DOT then [] else [s[0]] + BeforeDot(s[1..])
  }

  /** The 11 bytes of a name: format_entry undone. */
  function Unformatted(name: Bytes): Bytes {
    if name == [DOT] || name == [DOT, DOT] then name + Spaces(Max(11 - |name|, 0))
    else
      var base := BeforeDot(name);
      var ext := name[Min(|base| + 1, |name|)..];
      base + Spaces(Max(8 - |base|, 0)) + ext + Spaces(Max(3 - |ext|, 0))
  }

  lemma {:induction false} BeforeDotIs(base: Bytes, rest: Bytes)
    requires DOT !in base && (rest == [] || rest[0] == DOT)
    ensures BeforeDot(base + rest) == base
  {
    if base != [] {
      BeforeDotIs(base[1..], rest);
      assert (base + rest)[1..] == base[1..] + rest && (base + rest)[0] == base[0];
    } else {
      assert base + rest == rest;
    }
  }

  /** The name of a special entry. */
  lemma DotName(e: Entry, dots: Bytes)
    requires (dots == [DOT] || dots == [DOT, DOT]) && e[..11] == dots + Spaces(11 - |dots|)
    ensures EntryName(e) == dots
  {
    var clean := Clean(e);
    assert forall i :: 0 <= i < 11 ==> e[i] == e[..11][i];
    assert clean[..8][..|dots|] == dots && clean[..8][|dots|] == 0;
    TextIs(clean[..8], dots);
    assert clean[8..11][0] == 0;
  }

  lemma UnformattedDots(dots: Bytes)
    requires dots == [DOT] || dots == [DOT, DOT]
    ensures Unformatted(dots) == dots + Spaces(11 - |dots|)
  {
  }

  /** Every short name can be told from its text, ... */
  lemma UnformattedName(e: Entry)
    requires ShortName(e)
    ensures Unformatted(EntryName(e)) == e[..11]
  {
    hide Unformatted, Text, BeforeDot, Spaces, Joined;
    if e[..11] == [DOT] + Spaces(10) {
      DotName(e, [DOT]);
      UnformattedDots([DOT]);
    } else if e[..11] == [DOT, DOT] + Spaces(9) {
      DotName(e, [DOT, DOT]);
      UnformattedDots([DOT, DOT]);
    } else {
      JoinedApart(Base(Clean(e)), Extension(Clean(e)));
    }
  }

  lemma JoinedApart(base: Bytes, ext: Bytes)
    requires base != [] && DOT !in base && |base| <= 8 && |ext| <= 3
    ensures Unformatted(Joined(base, ext)) == base + Spaces(8 - |base|) + ext + Spaces(3 - |ext|)
  {
    var name := Joined(base, ext);
    var rest := if ext == [] then [] else [DOT] + ext;
    assert name == base + rest && name[0] == base[0];
    BeforeDotIs(base, rest);
    assert name[Min(|base| + 1, |name|)..] == ext;
  }

  /** ... so that no two short names look the same. */
  lemma NamesDiffer(e: Entry, d: Entry)
    requires ShortName(e) && ShortName(d) && EntryName(e) == EntryName(d)
    ensures e[..11] == d[..11]
  {
    UnformattedName(e);
    UnformattedName(d);
  }

  // ------------------------------------------------------------------ lookup

  function Slot(bytes: Bytes, i: nat): Entry
    requires 32 * i + 32 <= |bytes|
  {
    bytes[32 * i..32 * i + 32]
  }

  /** The first entry of that name among the entries in some bytes. */
  function FirstMatch(bytes: Bytes, name: Bytes): Option<Entry> {
    if |bytes| < 32 then None
    else if EntryName(Slot(bytes, 0)) == name then Some(Slot(bytes, 0))
    else FirstMatch(bytes[32..], name)
  }

  ghost predicate NoneBefore(bytes: Bytes, name: Bytes, k: nat)
    requires 32 * k <= |bytes|
  {
    forall j :: 0 <= j < k ==> EntryName(Slot(bytes, j)) != name
  }

  /** It is the first, and there is none only if no entry has the name. */
  lemma {:induction false} FirstMatchMeaning(bytes: Bytes, name: Bytes) returns (k: nat)
    ensures 32 * k <= |bytes| && NoneBefore(bytes, name, k)
    ensures match FirstMatch(bytes, name)
      case Some(e) => 32 * k + 32 <= |bytes| && e == Slot(bytes, k) && EntryName(e) == name
      case None => k == |bytes| / 32
  {
    hide EntryName;
    if |bytes| < 32 || EntryName(Slot(bytes, 0)) == name {
      k := 0;
    } else {
      var l := FirstMatchMeaning(bytes[32..], name);
      k := l + 1;
      SlotsLater(bytes, l);
      forall j | 0 <= j < k
        ensures EntryName(Slot(bytes, j)) != name
      {
        if j > 0 {
          SlotsLater(bytes, j - 1);
        }
      }
    }
  }

  lemma SlotsLater(bytes: Bytes, i: nat)
    requires 32 <= |bytes|
    ensures 32 * i + 64 <= |bytes| ==> Slot(bytes[32..], i) == Slot(bytes, i + 1)
  {
  }

  /** Looking through two bufferfuls, one after the other. */
  lemma {:induction false} FirstMatchAppend(a: Bytes, b: Bytes, name: Bytes)
    requires |a| % 32 == 0
    ensures FirstMatch(a + b, name) == if FirstMatch(a, name).Some? then FirstMatch(a, name) else FirstMatch(b, name)
  {
    hide EntryName;
    if a == [] {
      assert a + b == b;
    } else {
      FirstMatchAppend(a[32..], b, name);
      assert Slot(a + b, 0) == Slot(a, 0) && (a + b)[32..] == a[32..] + b;
    }
  }

  /** Does the entry, as it lies on the stack, have that name? */
  method HasName(e: Entry, name: Bytes, stack: Bytes) returns (same: bool)
    requires 0 in name && 0 in stack
    ensures same <==> EntryName(e) == Text(name)
  {
    var entry, fname := new u8[32 + |stack|], new u8[15];
    for i := 0 to 32 + |stack|
      invariant forall j :: 0 <= j < i ==> entry[j] == (e + stack)[j]
    {
      entry[i] := (e + stack)[i];
    }
    assert entry[..] == e + stack;
    CleanEntry(entry);
    CleanOnStack(e, stack);
    FormatEntry(entry[..], fname);
    var r := Strcmp(fname[..], name);
    same := r == 0;
  }

  lemma CleanOnStack(e: Entry, stack: Bytes)
    requires 0 in stack
    ensures Base(Clean(e + stack)) == Base(Clean(e)) && Extension(Clean(e + stack)) == Extension(Clean(e))
    ensures 0 in Clean(e + stack)[8..]
  {
    assert Clean(e + stack) == Clean(e) + stack;
    assert (Clean(e) + stack)[8..] == Clean(e)[8..] + stack;
    assert (Clean(e) + stack)[..8] == Clean(e)[..8] && (Clean(e) + stack)[8..11] == Clean(e)[8..11];
  }

  /** The search through one bufferful of entries. */
  method Scan(entries: Bytes, name: Bytes, stack: Bytes) returns (idx: int)
    requires 0 in name && 0 in stack
    ensures idx >= 0 ==> 32 * idx + 32 <= |entries|
    ensures FirstMatch(entries, Text(name)) == if idx < 0 then None else Some(Slot(entries, idx))
  {
    hide EntryName, Text;
    var i := 0;
    while i < |entries| / 32
      invariant 0 <= i && 32 * i <= |entries|
      invariant FirstMatch(entries, Text(name)) == FirstMatch(entries[32 * i..], Text(name))
    {
      var e := Slot(entries, i);
      assert Slot(entries[32 * i..], 0) == e && entries[32 * i..][32..] == entries[32 * (i + 1)..];
      var same := HasName(e, name, stack);
      if same {
        return i;
      }
      i := i + 1;
    }
    return -1;
  }
}
