/** kernel/string.c: the routines that names of files go through. A `char *` that is
    only read is the bytes from there on; one that is written is an array and an index. */
module CStrings {
  import opened MachineWords
  import opened ByteStrings

  /** The text that a pointer stands for: the bytes before the first NUL. */
  function Text(s: Bytes): (t: Bytes)
    ensures |t| <= |s| && t == s[..|t|] && 0 !in t
    ensures |t| < |s| ==> s[|t|] == 0
    ensures 0 in s ==> |t| < |s|
  {
    if s == [] || s[0] == 0 then [] else [s[0]] + Text(s[1..])
  }

  lemma {:induction false} TextIs(s: Bytes, t: Bytes)
    requires |t| < |s| && s[..|t|] == t && 0 !in t && s[|t|] == 0
    ensures Text(s) == t
  {
    if t != [] {
      assert s[0] == t[0] && t == [t[0]] + t[1..];
      TextIs(s[1..], t[1..]);
    }
  }

  /** A field of k bytes: its text ends with the field, if not before. */
  lemma {:induction false} TextCut(s: Bytes, k: nat)
    requires k <= |s|
    ensures Text(s[..k]) == Text(s)[..Min(|Text(s)|, k)]
  {
    if s != [] && s[0] != 0 && k > 0 {
      TextCut(s[1..], k - 1);
      assert s[..k][1..] == s[1..][..k - 1];
    }
  }

  lemma TextPrefix(s: Bytes, n: nat)
    requires n <= |Text(s)|
    ensures s[..n] == Text(s)[..n] && Text(s)[..|Text(s)|] == Text(s)
  {
  }

  lemma NotYetNul(s: Bytes, i: nat)
    requires i < |s| && s[i] != 0 && 0 !in s[..i] && 0 in s[i..]
    ensures s[..i + 1] == s[..i] + [s[i]] && 0 !in s[..i + 1] && 0 in s[i + 1..]
  {
    assert s[i..] == [s[i]] + s[i + 1..];
  }

  method Strlen(str: Bytes) returns (n: nat)
    requires 0 in str
    ensures n == |Text(str)|
  {
    n := 0;
    while str[n] != 0
      invariant n < |str| && 0 !in str[..n] && 0 in str[n..]
      decreases |str| - n
    {
      NotYetNul(str, n);
      n := n + 1;
    }
    TextIs(str, str[..n]);
  }

  method Strnlen(s: Bytes, maxlen: nat) returns (n: nat)
    requires 0 in s
    ensures n == Min(|Text(s)|, maxlen)
  {
    var len := Strlen(s);
    n := if len < maxlen then len else maxlen;
  }

  method Memset(b: array<u8>, s: nat, c: u8, n: nat)
    requires n > 0 ==> s + n <= b.Length
    modifies b
    ensures b[..] == if n == 0 then old(b[..]) else Overwrite(old(b[..]), s, Filled(n, c))
  {
    if n == 0 {
      return;
    }
    for i := 0 to n
      invariant b[..s] == old(b[..s]) && b[s + i..] == old(b[s + i..])
      invariant b[s..s + i] == Filled(i, c)
    {
      b[s + i] := c;
    }
  }

  /** Copies src. The assembly moves `dest` itself along, and `dest + n` is returned:
      the result lies twice as far as the end of the copy. */
  method Mempcpy(b: array<u8>, dest: nat, src: Bytes) returns (p: nat)
    requires dest + |src| <= b.Length
    modifies b
    ensures p == dest + 2 * |src|
    ensures b[..] == Overwrite(old(b[..]), dest, src)
  {
    for i := 0 to |src|
      invariant b[..dest] == old(b[..dest]) && b[dest + i..] == old(b[dest + i..])
      invariant b[dest..dest + i] == src[..i]
    {
      b[dest + i] := src[i];
    }
    p := dest + |src| + |src|;
  }

  /** `memcpy` */
  method Memcpy(b: array<u8>, dest: nat, src: Bytes)
    requires dest + |src| <= b.Length
    modifies b
    ensures b[..] == Overwrite(old(b[..]), dest, src)
    ensures b[..dest + |src|] == old(b[..dest]) + src && b[dest + |src|..] == old(b[dest + |src|..])
  {
    var _ := Mempcpy(b, dest, src);
    var s := b[..];
    assert b[..dest + |src|] == s[..dest + |src|] && b[dest + |src|..] == s[dest + |src|..];
  }

  /** What stpcpy leaves: the text, and a NUL where mempcpy says that it ends. */
  function Pasted(s: Bytes, dst: nat, t: Bytes): Bytes
    requires dst + 2 * |t| < |s|
  {
    Overwrite(Overwrite(s, dst, t), dst + 2 * |t|, [0])
  }

  /** What stpncpy leaves: no more than a field of the text, and as many zeros as there
      is room left in the field, from where mempcpy says that the text ends. */
  function Padded(s: Bytes, dst: nat, t: Bytes, field: nat): Bytes
    requires |t| <= field && dst + |t| <= |s| && (|t| < field ==> dst + |t| + field <= |s|)
  {
    var pasted := Overwrite(s, dst, t);
    if |t| == field then pasted else Overwrite(pasted, dst + 2 * |t|, Filled(field - |t|, 0))
  }

  /** The bytes from dst on hold t and end it. */
  ghost predicate Reads(s: Bytes, dst: nat, t: Bytes) {
    dst <= |s| && 0 in s[dst..] && Text(s[dst..]) == t
  }

  lemma ReadsNext(s: Bytes, dst: nat, t: Bytes)
    requires dst + |t| < |s| && s[dst..dst + |t|] == t && 0 !in t
    ensures Reads(s, dst, t) <==> s[dst + |t|] == 0
  {
    var r := s[dst..];
    assert r[..|t|] == t && r[|t|] == s[dst + |t|];
    if r[|t|] == 0 {
      TextIs(r, t);
    }
  }

  /** A pasted text can be read back exactly if the byte where it ends was NUL before:
      the NUL that should end it has gone somewhere else, unless the text is empty. */
  lemma PastedReads(s: Bytes, dst: nat, t: Bytes)
    requires dst + 2 * |t| < |s| && 0 !in t
    ensures Reads(Pasted(s, dst, t), dst, t) <==> t == [] || s[dst + |t|] == 0
  {
    var p := Pasted(s, dst, t);
    OverwriteStays(s, dst, t, dst + 2 * |t|, [0]);
    ReadsNext(p, dst, t);
  }

  /** ... and so can a padded one. */
  lemma PaddedReads(s: Bytes, dst: nat, t: Bytes, field: nat)
    requires |t| <= field && dst + |t| <= |s| && (|t| < field ==> dst + |t| + field <= |s|) && 0 !in t
    ensures Reads(Padded(s, dst, t, field), dst, t)
       <==> (t == [] && field > 0) || (dst + |t| < |s| && s[dst + |t|] == 0)
  {
    var p := Padded(s, dst, t, field);
    OverwriteStays(s, dst, t, dst + |t|, []);
    if |t| < field {
      OverwriteStays(s, dst, t, dst + 2 * |t|, Filled(field - |t|, 0));
    }
    if dst + |t| < |s| {
      ReadsNext(p, dst, t);
    } else {
      assert p[dst..] == t;
    }
  }

  /** A byte of the field that a padding in the wrong place leaves, or one behind the field
      that it clears. */
  predicate Astray(i: int, dst: nat, k: nat, field: nat) {
    (dst + k <= i < dst + 2 * k && i < dst + field) || (dst + field <= i && dst + 2 * k <= i < dst + k + field)
  }

  /** Those bytes are zero already. */
  ghost predicate ClearAround(s: Bytes, dst: nat, k: nat, field: nat) {
    forall i :: 0 <= i < |s| && Astray(i, dst, k, field) ==> s[i] == 0
  }

  function PaddedByte(s: Bytes, dst: nat, t: Bytes, field: nat, i: nat): u8
    requires i < |s|
  {
    if dst + 2 * |t| <= i < dst + |t| + field then 0 else if dst <= i < dst + |t| then t[i - dst] else s[i]
  }

  lemma PaddedAt(s: Bytes, dst: nat, t: Bytes, field: nat)
    requires |t| <= field && dst + |t| <= |s| && (|t| < field ==> dst + |t| + field <= |s|)
    ensures |Padded(s, dst, t, field)| == |s|
    ensures forall i :: 0 <= i < |s| ==> Padded(s, dst, t, field)[i] == PaddedByte(s, dst, t, field, i)
  {
  }

  /** A byte of a buffer in which a field holds t and zeros. */
  function FieldByte(s: Bytes, dst: nat, t: Bytes, field: nat, i: nat): u8
    requires i < |s|
  {
    if dst <= i < dst + |t| then t[i - dst] else if dst + |t| <= i < dst + field then 0 else s[i]
  }

  lemma FieldAt(s: Bytes, dst: nat, t: Bytes, field: nat)
    requires |t| <= field && dst + |t| <= |s| && (|t| < field ==> dst + |t| + field <= |s|)
    ensures var w := Overwrite(s, dst, t + Filled(field - |t|, 0));
      |w| == |s| && forall i :: 0 <= i < |s| ==> w[i] == FieldByte(s, dst, t, field, i)
  {
  }

  /** Padding does what it is meant to exactly then. */
  lemma PaddedIsField(s: Bytes, dst: nat, t: Bytes, field: nat)
    requires |t| <= field && dst + |t| <= |s| && (|t| < field ==> dst + |t| + field <= |s|)
    ensures Padded(s, dst, t, field) == Overwrite(s, dst, t + Filled(field - |t|, 0))
       <==> ClearAround(s, dst, |t|, field)
  {
    hide Padded, Overwrite, ClearAround;
    var p, w := Padded(s, dst, t, field), Overwrite(s, dst, t + Filled(field - |t|, 0));
    PaddedAt(s, dst, t, field);
    FieldAt(s, dst, t, field);
    if p == w {
      StrayBytesAgree(s, p, w, dst, |t|, field);
    } else if ClearAround(s, dst, |t|, field) {
      ClearBytesAgree(s, p, w, dst, t, field);
    }
  }

  lemma StrayBytesAgree(s: Bytes, p: Bytes, w: Bytes, dst: nat, k: nat, field: nat)
    requires k <= field && |p| == |s| == |w| && p == w
    requires forall i :: 0 <= i < |s| && dst + 2 * k <= i < dst + k + field ==> p[i] == 0
    requires forall i :: 0 <= i < |s| && dst + k <= i < dst + 2 * k && i < dst + k + field ==> p[i] == s[i]
    requires forall i :: 0 <= i < |s| && dst + k <= i < dst + field ==> w[i] == 0
    requires forall i :: 0 <= i < |s| && dst + field <= i ==> w[i] == s[i]
    ensures ClearAround(s, dst, k, field)
  {
  }

  lemma ClearBytesAgree(s: Bytes, p: Bytes, w: Bytes, dst: nat, t: Bytes, field: nat)
    requires |t| <= field && |p| == |s| == |w| && ClearAround(s, dst, |t|, field)
    requires forall i :: 0 <= i < |s| ==> p[i] == PaddedByte(s, dst, t, field, i)
    requires forall i :: 0 <= i < |s| ==> w[i] == FieldByte(s, dst, t, field, i)
    ensures p == w
  {
  }

  /** "A" written over "xxxx" reads as "Ax"; padded to a field of three it keeps the x and
      loses the byte behind the field. */
  lemma StaleBytes()
    ensures Pasted([120, 120, 120, 120], 0, [65]) == [65, 120, 0, 120]
    ensures Text(Pasted([120, 120, 120, 120], 0, [65])) == [65, 120]
    ensures Padded([120, 120, 120, 120], 0, [65], 3) == [65, 120, 0, 0]
  {
    TextIs([65, 120, 0, 120], [65, 120]);
  }

  /** Appending: the text that was there is followed by another, or by whatever was behind it. */
  lemma AppendedReads(s: Bytes, p: Bytes, dst: nat, n: nat, t: Bytes)
    requires dst + n <= |s| == |p| && s[..dst + n] == p[..dst + n] && 0 !in s[dst..dst + n]
    ensures Reads(p, dst, s[dst..dst + n] + t) <==> Reads(p, dst + n, t)
  {
    hide Text;
    var x := s[dst..dst + n];
    var r, q, xt := p[dst..], p[dst + n..], x + t;
    assert r[..n] == p[..dst + n][dst..] == s[..dst + n][dst..] == x && r[n..] == q;
    if Reads(p, dst, xt) {
      assert r[..|xt|] == xt;
      assert q[..|t|] == r[..|xt|][n..] == t && q[|t|] == r[|xt|];
      assert 0 !in t;
      TextIs(q, t);
    }
    if Reads(p, dst + n, t) {
      assert r[..|xt|] == r[..n] + q[..|t|] && r[|xt|] == q[|t|];
      TextIs(r, xt);
    }
  }

  /** The text of the buffer from dst on lies before its NUL. */
  lemma TextBefore(s: Bytes, dst: nat)
    requires dst <= |s| && 0 in s[dst..]
    ensures var n := |Text(s[dst..])|;
      dst + n < |s| && s[dst..dst + n] == Text(s[dst..]) && 0 !in s[dst..dst + n]
  {
    assert s[dst..][..|Text(s[dst..])|] == s[dst..dst + |Text(s[dst..])|];
  }

  method Stpcpy(b: array<u8>, dst: nat, src: Bytes) returns (p: nat)
    requires 0 in src && dst + 2 * |Text(src)| < b.Length
    modifies b
    ensures p == dst + 2 * |Text(src)|
    ensures b[..] == Pasted(old(b[..]), dst, Text(src))
    ensures Reads(b[..], dst, Text(src)) <==> Text(src) == [] || old(b[dst + |Text(src)|]) == 0
  {
    var n := Strlen(src);
    TextPrefix(src, n);
    PastedReads(b[..], dst, Text(src));
    p := Mempcpy(b, dst, src[..n]);
    ghost var s := b[..];
    b[p] := 0;
    assert b[..] == s[p := 0] == Overwrite(s, p, [0]);
  }

  method Strcat(b: array<u8>, dst: nat, src: Bytes)
    requires dst <= b.Length && 0 in b[dst..] && 0 in src
    requires dst + |Text(b[dst..])| + 2 * |Text(src)| < b.Length
    modifies b
    ensures b[..] == Pasted(old(b[..]), dst + |old(Text(b[dst..]))|, Text(src))
    ensures Reads(b[..], dst, old(Text(b[dst..])) + Text(src))
       <==> Text(src) == [] || old(b[dst + |Text(b[dst..])| + |Text(src)|]) == 0
  {
    hide Text;
    ghost var s := b[..];
    assert b[dst..] == s[dst..];
    TextBefore(s, dst);
    var n := Strlen(b[dst..]);
    var _ := Stpcpy(b, dst + n, src);
    AppendedReads(s, b[..], dst, n, Text(src));
  }

  method Strncpy(b: array<u8>, dst: nat, src: Bytes, dsize: nat)
    requires 0 in src && dst + Min(|Text(src)|, dsize) <= b.Length
    requires |Text(src)| < dsize ==> dst + |Text(src)| + dsize <= b.Length
    modifies b
    ensures b[..] == Padded(old(b[..]), dst, Text(src)[..Min(|Text(src)|, dsize)], dsize)
    ensures var t := Text(src)[..Min(|Text(src)|, dsize)];
      b[..] == Overwrite(old(b[..]), dst, t + Filled(dsize - |t|, 0)) <==> old(ClearAround(b[..], dst, |t|, dsize))
  {
    hide Text, Overwrite, ClearAround;
    var dlen := Strnlen(src, dsize);
    TextPrefix(src, dlen);
    PaddedIsField(b[..], dst, src[..dlen], dsize);
    var p := Mempcpy(b, dst, src[..dlen]);
    Memset(b, p, 0, dsize - dlen);
  }

  method Strncat(b: array<u8>, dst: nat, src: Bytes, n: nat)
    requires dst <= b.Length && 0 in b[dst..] && 0 in src
    requires dst + |Text(b[dst..])| + Min(|Text(src)|, n) <= b.Length
    requires |Text(src)| < n ==> dst + |Text(b[dst..])| + |Text(src)| + n <= b.Length
    modifies b
    ensures b[..] == Padded(old(b[..]), dst + |old(Text(b[dst..]))|, Text(src)[..Min(|Text(src)|, n)], n)
    ensures var t, at := Text(src)[..Min(|Text(src)|, n)], dst + |old(Text(b[dst..]))|;
      Reads(b[..], dst, old(Text(b[dst..])) + t)
      <==> (t == [] && n > 0) || (at + |t| < b.Length && old(b[..])[at + |t|] == 0)
  {
    hide Text, Overwrite, ClearAround, Padded, Reads;
    ghost var s, t := b[..], Text(src)[..Min(|Text(src)|, n)];
    assert b[dst..] == s[dst..];
    TextBefore(s, dst);
    var len := Strlen(b[dst..]);
    NoNulIn(Text(src), |t|);
    PaddedReads(s, dst + len, t, n);
    PaddedKeepsBefore(s, dst + len, t, n);
    Strncpy(b, dst + len, src, n);
    AppendedReads(s, b[..], dst, len, t);
  }

  lemma NoNulIn(t: Bytes, k: nat)
    requires k <= |t| && 0 !in t
    ensures 0 !in t[..k]
  {
  }

  lemma PaddedKeepsBefore(s: Bytes, dst: nat, t: Bytes, field: nat)
    requires |t| <= field && dst + |t| <= |s| && (|t| < field ==> dst + |t| + field <= |s|)
    ensures |Padded(s, dst, t, field)| == |s| && Padded(s, dst, t, field)[..dst] == s[..dst]
  {
  }

  /** A `char`, which is signed. */
  function Char(c: u8): int {
    if c < 0x80 then c else c - 0x100
  }

  lemma CharIs(c: u8)
    ensures -128 <= Char(c) < 128 && Char(c) % 0x100 == c
  {
  }

  /** The order of texts (section 7.21.4 of ISO/IEC 9899:1999): bytes count as unsigned, and
      a text comes before those that it begins. */
  predicate Before(t: Bytes, u: Bytes) {
    u != [] && (t == [] || t[0] < u[0] || (t[0] == u[0] && Before(t[1..], u[1..])))
  }

  /** The bytes where two texts first differ; at its end a text has its NUL. */
  function Mismatch(t: Bytes, u: Bytes): (u8, u8) {
    if t == [] && u == [] then (0, 0)
    else if t == [] then (0, u[0])
    else if u == [] then (t[0], 0)
    else if t[0] != u[0] then (t[0], u[0])
    else Mismatch(t[1..], u[1..])
  }

  lemma {:induction false} MismatchOrders(t: Bytes, u: Bytes)
    requires 0 !in t && 0 !in u
    ensures Before(t, u) <==> Mismatch(t, u).0 < Mismatch(t, u).1
    ensures t == u <==> Mismatch(t, u).0 == Mismatch(t, u).1
    decreases |t|
  {
    if t != [] && u != [] && t[0] == u[0] {
      MismatchOrders(t[1..], u[1..]);
      assert t == [t[0]] + t[1..] && u == [u[0]] + u[1..];
    }
  }

  lemma {:induction false} MismatchAt(s1: Bytes, s2: Bytes, i: nat)
    requires i < |s1| && i < |s2| && s1[..i] == s2[..i] && 0 !in s1[..i] && s1[i] != s2[i]
    ensures Mismatch(Text(s1), Text(s2)) == (s1[i], s2[i])
    decreases i
  {
    if i > 0 {
      assert s1[0] == s1[..i][0] && s1[0] == s2[..i][0];
      assert s1[1..][..i - 1] == s1[..i][1..] && s2[1..][..i - 1] == s2[..i][1..];
      MismatchAt(s1[1..], s2[1..], i - 1);
    }
  }

  /** What the difference of the first bytes that differ, taken as signed ones, says of the order:
      what it should exactly if these are both ASCII, or neither is. */
  lemma SignedOrder(t: Bytes, u: Bytes)
    requires 0 !in t && 0 !in u
    ensures var (a, b) := Mismatch(t, u);
      && (t == u <==> Char(a) - Char(b) == 0)
      && (t != u ==> ((Char(a) - Char(b) < 0 <==> Before(t, u)) <==> (a < 0x80 <==> b < 0x80)))
  {
    MismatchOrders(t, u);
    hide Before, Mismatch;
    CharIs(Mismatch(t, u).0);
    CharIs(Mismatch(t, u).1);
  }

  /** The texts "A" and "\x80": `strcmp` has the second one first. */
  lemma SignedByte()
    ensures Before([0x41], [0x80]) && Mismatch([0x41], [0x80]) == (0x41, 0x80) && Char(0x41) - Char(0x80) > 0
  {
  }

  /** `strcmp`: 0 for equal texts; otherwise its sign tells their order, as long as the bytes
      where they first differ are both ASCII, or neither is. */
  method Strcmp(s1: Bytes, s2: Bytes) returns (r: int)
    requires 0 in s1 && 0 in s2
    ensures r == 0 <==> Text(s1) == Text(s2)
    ensures var (a, b) := Mismatch(Text(s1), Text(s2));
      && r == Char(a) - Char(b)
      && (r != 0 ==> ((r < 0 <==> Before(Text(s1), Text(s2))) <==> (a < 0x80 <==> b < 0x80)))
  {
    hide Text, Mismatch, Before, Char;
    SignedOrder(Text(s1), Text(s2));
    var i := 0;
    while s1[i] != 0 || s2[i] != 0
      invariant i < |s1| && i < |s2| && s1[..i] == s2[..i] && 0 !in s1[..i]
      invariant 0 in s1[i..] && 0 in s2[i..]
      decreases |s1| - i
    {
      if s1[i] != s2[i] {
        MismatchAt(s1, s2, i);
        return Char(s1[i]) - Char(s2[i]);
      }
      NotYetNul(s1, i);
      NotYetNul(s2, i);
      i := i + 1;
    }
    TextIs(s1, s1[..i]);
    TextIs(s2, s1[..i]);
    return 0;
  }
}
