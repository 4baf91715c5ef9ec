/** Byte strings, and what is written over them. */
module ByteStrings {
  import opened MachineWords

  type Bytes = seq<u8>

  /** `bytes` laid over s from `at` on. */
  function Overwrite(s: Bytes, at: int, bytes: Bytes): (r: Bytes)
    requires 0 <= at && at + |bytes| <= |s|
    ensures |r| == |s|
  {
    s[..at] + bytes + s[at + |bytes|..]
  }

  lemma OverwriteTwice(s: Bytes, at: nat, a: Bytes, b: Bytes)
    requires at + |a| + |b| <= |s|
    ensures Overwrite(Overwrite(s, at, a), at + |a|, b) == Overwrite(s, at, a + b)
  {
  }

  lemma OverwriteMiddle(a: Bytes, b: Bytes, d: Bytes, o: nat, bytes: Bytes)
    requires o + |bytes| <= |b|
    ensures Overwrite(a + b + d, |a| + o, bytes) == a + Overwrite(b, o, bytes) + d
  {
  }

  /** What is laid over s stays there when something is laid behind it. */
  lemma OverwriteStays(s: Bytes, at: nat, bytes: Bytes, behind: nat, more: Bytes)
    requires at + |bytes| <= behind && behind + |more| <= |s|
    ensures Overwrite(s, at, bytes)[at..at + |bytes|] == bytes
    ensures Overwrite(Overwrite(s, at, bytes), behind, more)[at..at + |bytes|] == bytes
  {
    var r := Overwrite(s, at, bytes);
    assert r[at..at + |bytes|] == bytes;
    assert Overwrite(r, behind, more)[..behind] == r[..behind];
    assert r[..behind][at..at + |bytes|] == r[at..at + |bytes|];
    assert Overwrite(r, behind, more)[..behind][at..at + |bytes|] == Overwrite(r, behind, more)[at..at + |bytes|];
  }

  lemma SameRest(a: Bytes, b: Bytes, i: nat, j: nat)
    requires i <= j <= |a| && i <= |b| && a[i..] == b[i..]
    ensures |a| == |b| && a[j..] == b[j..]
  {
    assert a[j..] == a[i..][j - i..] && b[j..] == b[i..][j - i..];
  }

  lemma SlicesJoin(s: Bytes, i: nat, j: nat, k: nat)
    requires i <= j <= k <= |s|
    ensures s[i..k] == s[i..j] + s[j..k]
  {
  }

  function Filled(n: nat, c: u8): (r: Bytes)
    ensures |r| == n && forall i :: 0 <= i < n ==> r[i] == c
  {
    seq(n, _ => c)
  }
}
