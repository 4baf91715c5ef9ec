/** kernel/fat.c: find_entry and chdir, and the tree that a current directory is a place in. */
module Directories {
  import opened Arithmetic
  import opened MachineWords
  import opened Options
  import opened ByteStrings
  import opened CStrings
  import opened Clusters
  import opened FatFiles
  import opened DirectoryEntries

  datatype Cwd = Cwd(depth: u32, cluster: u32)

  const UP: Bytes := [DOT, DOT]
  const HERE: Bytes := [DOT]

  /** What chdir makes of the current directory, given what is listed there. */
  function Entered(cwd: Cwd, listing: Bytes, name: Bytes): (Cwd, int) {
    if cwd.depth == 0 && (name == UP || name == HERE) then (cwd, 0)
    else match FirstMatch(listing, name)
      case None => (cwd, -1)
      case Some(e) =>
        if !IsDirectory(e) then (cwd, -1)
        else
          var depth :=
            if name == UP then Add32(cwd.depth, -1) else if name == HERE then cwd.depth else Add32(cwd.depth, 1);
          (Cwd(if ClusterOf(e) == 0 then 0 else depth, ClusterOf(e)), 0)
  }

  class Volume {
    const fs: FatFs
    const root: Bytes
    var depth: u32
    var cluster: u32

    constructor (fs: FatFs, root: Bytes)
      ensures this.fs == fs && this.root == root && Here() == Cwd(0, 0)
    {
      this.fs, this.root, depth, cluster := fs, root, 0, 0;
    }

    /** Clusters and the root directory are whole sectors of 512 bytes. */
    ghost predicate Valid()
      reads fs.fat, fs.disk
    {
      fs.Valid() && fs.bytesPerCluster % 512 == 0 && |root| % 512 == 0
    }

    function Here(): Cwd
      reads this
    {
      Cwd(depth, cluster)
    }

    /** c is the current directory's chain, unless that is the root. */
    ghost predicate At(c: Chain)
      reads this, fs.fat
    {
      depth != 0 && cluster != 0 ==> IsChain(fs.fat[..], c) && c[0] == cluster
    }

    /** The entries of the current directory: those of the root, or of all its clusters. */
    ghost function Listing(c: Chain): Bytes
      requires Valid() && At(c)
      reads this, fs.fat, fs.disk
    {
      if depth == 0 then root else if cluster == 0 then [] else Flat(fs.disk[..], c)
    }

    /** `find_entry`; None is its -1. */
    method FindEntry(name: Bytes, stack: Bytes, ghost c: Chain) returns (found: Option<Entry>)
      requires Valid() && At(c) && 0 in name && 0 in stack
      ensures found == FirstMatch(Listing(c), Text(name))
    {
      hide FirstMatch, Text, Flat;
      if depth == 0 {
        var idx := Scan(root, name, stack);
        return if idx < 0 then None else Some(Slot(root, idx));
      }
      if cluster == 0 {
        NothingListed(Text(name));
        return None;
      }
      found := FindInChain(name, stack, c);
    }

    /** The loop over the clusters of a directory. */
    method FindInChain(name: Bytes, stack: Bytes, ghost c: Chain) returns (found: Option<Entry>)
      requires Valid() && IsChain(fs.fat[..], c) && c[0] == cluster && 0 in name && 0 in stack
      ensures found == FirstMatch(Flat(fs.disk[..], c), Text(name))
    {
      hide FirstMatch, Text, Flat;
      ghost var data := fs.disk[..];
      var cur := cluster;
      ghost var q := 0;
      assert c[0..] == c;
      while cur != END
        invariant 0 <= q <= |c| && if q < |c| then cur == c[q] else cur == END
        invariant FirstMatch(Flat(data, c), Text(name)) == FirstMatch(Flat(data, c[q..]), Text(name))
        decreases |c| - q
      {
        var entries := fs.disk[cur];
        FirstInCluster(data, c, q, Text(name), fs.bytesPerCluster);
        var idx := Scan(entries, name, stack);
        if idx >= 0 {
          return Some(Slot(entries, idx));
        }
        assert q + 1 < |c| ==> fs.fat[..][c[q]] == c[q + 1];
        cur := fs.fat[cur];
        q := q + 1;
      }
      NothingInNoClusters(data, c[q..]);
      NothingListed(Text(name));
      found := None;
    }

    /** `chdir` */
    method Chdir(dirname: Bytes, stack: Bytes, ghost c: Chain) returns (r: int)
      requires Valid() && At(c) && 0 in dirname && 0 in stack
      modifies this`depth, this`cluster
      ensures (Here(), r) == old(Entered(Here(), Listing(c), Text(dirname)))
      ensures forall x: Fields ::
        x.Sized() && Text(dirname) != [46] && Text(dirname) != [46, 46]
        && old(FirstMatch(Listing(c), Text(dirname))) == Some(LaidOut(x)) ==>
          if x.directory then
            r == 0 && cluster == x.cluster && depth == if x.cluster == 0 then 0 else Add32(old(depth), 1)
          else r == -1 && Here() == old(Here())
    {
      hide FirstMatch, Text, Flat, LaidOut, IsDirectory, ClusterOf;
      Literals();
      forall x: Fields | x.Sized()
        ensures ClusterOf(LaidOut(x)) == x.cluster && (IsDirectory(LaidOut(x)) <==> x.directory)
      {
        ReadsFields(x);
      }
      var up := Strcmp(dirname, UP + [0]);
      var here := Strcmp(dirname, HERE + [0]);
      if depth == 0 && (up == 0 || here == 0) {
        return 0;
      }
      var entry := FindEntry(dirname, stack, c);
      if entry.None? {
        return -1;
      }
      if !IsDirectory(entry.value) {
        return -1;
      }
      if up == 0 {
        depth := Add32(depth, -1);
      } else if here != 0 {
        depth := Add32(depth, 1);
      }
      cluster := ClusterOf(entry.value);
      if cluster == 0 {
        depth := 0;
      }
      return 0;
    }
  }

  /** A volume whose directories are those of a tree. */
  ghost predicate HasTree(v: Volume, t: Tree, chains: map<int, Chain>)
    requires v.Valid()
    reads v.fs.fat, v.fs.disk
  {
    && t.root == v.root
    && forall k :: k in t.dirs ==>
      k in chains && IsChain(v.fs.fat[..], chains[k]) && chains[k][0] == k
      && t.dirs[k] == Flat(v.fs.disk[..], chains[k])
  }

  /** chdir on a volume that holds a well-formed tree: the current directory follows the path. */
  method ChdirInTree(v: Volume, dirname: Bytes, stack: Bytes,
                     ghost t: Tree, ghost chains: map<int, Chain>, ghost p: seq<int>)
    returns (r: int)
    requires v.Valid() && WellFormed(t) && HasTree(v, t, chains) && Stands(t, v.Here(), p)
    requires 0 in dirname && 0 in stack
    modifies v`depth, v`cluster
    ensures Top(p) == 0 || Top(p) in t.dirs
    ensures var (p', r') := Walked(t, p, Text(dirname)); r == r' && Stands(t, v.Here(), p')
  {
    hide Text, Flat, FirstMatch, WellFormed, Entered, Walked;
    ListedAt(t, v.Here(), p);
    ChdirWalks(t, v.Here(), p, Text(dirname));
    ghost var c: Chain := if v.depth == 0 then [] else chains[v.cluster];
    r := v.Chdir(dirname, stack, c);
  }

  lemma Literals()
    ensures Text(UP + [0]) == UP && Text(HERE + [0]) == HERE && 0 in UP + [0] && 0 in HERE + [0]
  {
    TextIs(UP + [0], UP);
    TextIs(HERE + [0], HERE);
    assert (UP + [0])[2] == 0 && (HERE + [0])[1] == 0;
  }

  lemma NothingListed(name: Bytes)
    ensures FirstMatch([], name) == None
  {
  }

  lemma NothingInNoClusters(data: seq<Bytes>, c: Chain)
    requires c == []
    ensures Flat(data, c) == []
  {
  }

  lemma FlatFrom(data: seq<Bytes>, c: Chain, q: nat)
    requires q < |c| && forall i :: 0 <= i < |c| ==> c[i] < |data|
    ensures Flat(data, c[q..]) == data[c[q]] + Flat(data, c[q + 1..])
  {
    assert c[q..][1..] == c[q + 1..] && c[q..][0] == c[q];
  }

  lemma WholeEntries(size: nat)
    requires size % 512 == 0
    ensures size % 32 == 0
  {
  }

  lemma FirstInCluster(data: seq<Bytes>, c: Chain, q: nat, name: Bytes, size: nat)
    requires q < |c| && size % 512 == 0
    requires forall i :: 0 <= i < |c| ==> c[i] < |data| && |data[c[i]]| == size
    ensures FirstMatch(Flat(data, c[q..]), name)
         == if FirstMatch(data[c[q]], name).Some? then FirstMatch(data[c[q]], name)
            else FirstMatch(Flat(data, c[q + 1..]), name)
  {
    hide FirstMatch, Flat;
    FlatFrom(data, c, q);
    WholeEntries(size);
    FirstMatchAppend(data[c[q]], Flat(data, c[q + 1..]), name);
  }

  // ------------------------------------------------------------- the tree

  /** The directories of a volume: what is listed in the root and in each other directory,
      which its first cluster stands for; and the directory above each, 0 for the root. */
  datatype Tree = Tree(root: Bytes, dirs: map<int, Bytes>, parent: map<int, int>)

  function ListingOf(t: Tree, k: int): Bytes
    requires k == 0 || k in t.dirs
  {
    if k == 0 then t.root else t.dirs[k]
  }

  function Subdirectory(listing: Bytes, name: Bytes): Option<int> {
    match FirstMatch(listing, name)
    case None => None
    case Some(e) => if IsDirectory(e) then Some(ClusterOf(e)) else None
  }

  /** Directories other than the root begin with entries for themselves and the one above. */
  ghost predicate WellFormed(t: Tree) {
    && 0 !in t.dirs && t.parent.Keys == t.dirs.Keys
    && (forall k :: k in t.dirs ==> 0 < k < TWO16 && (t.parent[k] == 0 || t.parent[k] in t.dirs))
    && (forall k :: k in t.dirs ==> Subdirectory(t.dirs[k], HERE) == Some(k))
    && (forall k :: k in t.dirs ==> Subdirectory(t.dirs[k], UP) == Some(t.parent[k]))
    && (forall k, name: Bytes :: (k == 0 || k in t.dirs) && name != UP && name != HERE ==>
          LeadsDown(t, k, Subdirectory(ListingOf(t, k), name)))
  }

  ghost predicate LeadsDown(t: Tree, k: int, sub: Option<int>) {
    sub.Some? ==> sub.value in t.dirs && sub.value in t.parent && t.parent[sub.value] == k
  }

  /** The directories on the way from the root, each below the one before. */
  ghost predicate IsPath(t: Tree, p: seq<int>) {
    && (forall i :: 0 <= i < |p| ==> p[i] in t.dirs && p[i] in t.parent)
    && (p != [] ==> t.parent[p[0]] == 0)
    && (forall i, j :: 0 <= i < |p| && 0 <= j < |p| && j == i + 1 ==> t.parent[p[j]] == p[i])
  }

  function Top(p: seq<int>): int {
    if p == [] then 0 else p[|p| - 1]
  }

  /** A directory has one path only ... */
  lemma {:induction false} OnePath(t: Tree, p: seq<int>, q: seq<int>)
    requires WellFormed(t) && IsPath(t, p) && IsPath(t, q) && Top(p) == Top(q)
    ensures p == q
  {
    hide WellFormed;
    RootIsNoSubdirectory(t);
    if p != [] && q != [] {
      PathAbove(t, p);
      PathAbove(t, q);
      var p', q' := p[..|p| - 1], q[..|q| - 1];
      OnePath(t, p', q');
      assert p == p' + [Top(p)] && q == q' + [Top(q)];
    }
  }

  lemma RootIsNoSubdirectory(t: Tree)
    requires WellFormed(t)
    ensures 0 !in t.dirs
  {
  }

  lemma PathAbove(t: Tree, p: seq<int>)
    requires IsPath(t, p) && p != []
    ensures IsPath(t, p[..|p| - 1]) && Top(p[..|p| - 1]) == t.parent[Top(p)]
  {
    var p' := p[..|p| - 1];
    assert p' != [] ==> t.parent[p[|p| - 1]] == p[|p| - 2];
  }

  lemma PathPrefix(t: Tree, p: seq<int>, n: nat)
    requires IsPath(t, p) && n <= |p|
    ensures IsPath(t, p[..n])
  {
  }

  lemma PathDistinct(t: Tree, p: seq<int>, i: nat, j: nat)
    requires WellFormed(t) && IsPath(t, p) && i < j < |p|
    ensures p[i] != p[j]
  {
    hide WellFormed;
    PathPrefix(t, p, i + 1);
    PathPrefix(t, p, j + 1);
    hide IsPath;
    if p[i] == p[j] {
      OnePath(t, p[..i + 1], p[..j + 1]);
    }
  }

  /** ... so that paths are shorter than 2^16, and the depth does not wrap. */
  lemma PathFits(t: Tree, p: seq<int>)
    requires WellFormed(t) && IsPath(t, p)
    ensures |p| <= TWO16
  {
    forall i, j | 0 <= i < j < |p|
      ensures p[i] != p[j]
    {
      PathDistinct(t, p, i, j);
    }
    DistinctBounded(p, TWO16);
  }

  /** The current directory is where the path leads: its depth is the path's length, and
      its cluster is 0 exactly at the root. */
  ghost predicate Stands(t: Tree, cwd: Cwd, p: seq<int>) {
    IsPath(t, p) && cwd.depth == |p| && cwd.cluster == Top(p)
  }

  /** Changing directory, on paths. */
  function Walked(t: Tree, p: seq<int>, name: Bytes): (seq<int>, int)
    requires Top(p) == 0 || Top(p) in t.dirs
  {
    if name == HERE || (name == UP && p == []) then (p, 0)
    else if name == UP then (p[..|p| - 1], 0)
    else match Subdirectory(ListingOf(t, Top(p)), name)
      case None => (p, -1)
      case Some(k) => (p + [k], 0)
  }

  lemma TopIsListed(t: Tree, p: seq<int>)
    requires IsPath(t, p)
    ensures Top(p) == 0 || Top(p) in t.dirs
  {
  }

  lemma WellFormedAt(t: Tree, k: int, name: Bytes)
    requires WellFormed(t) && (k == 0 || k in t.dirs)
    ensures 0 !in t.dirs && 0 <= k < TWO16
    ensures k != 0 ==> Subdirectory(t.dirs[k], HERE) == Some(k)
    ensures k != 0 ==> k in t.parent && Subdirectory(t.dirs[k], UP) == Some(t.parent[k])
    ensures name != UP && name != HERE ==> LeadsDown(t, k, Subdirectory(ListingOf(t, k), name))
  {
  }

  lemma PathBelow(t: Tree, p: seq<int>, k: int)
    requires IsPath(t, p) && k in t.dirs && k in t.parent && t.parent[k] == Top(p)
    ensures IsPath(t, p + [k])
  {
  }

  /** chdir, in a well-formed tree, is that. */
  lemma ChdirWalks(t: Tree, cwd: Cwd, p: seq<int>, name: Bytes)
    requires WellFormed(t) && Stands(t, cwd, p)
    ensures Top(p) == 0 || Top(p) in t.dirs
    ensures var (cwd', r), (p', r') := Entered(cwd, ListingOf(t, Top(p)), name), Walked(t, p, name);
      r == r' && Stands(t, cwd', p')
  {
    hide FirstMatch, WellFormed, IsDirectory, ClusterOf;
    TopIsListed(t, p);
    PathFits(t, p);
    WellFormedAt(t, Top(p), name);
    if p != [] && name == UP {
      PathAbove(t, p);
      TopIsListed(t, p[..|p| - 1]);
    } else if name != UP && name != HERE {
      var sub := Subdirectory(ListingOf(t, Top(p)), name);
      if sub.Some? {
        PathBelow(t, p, sub.value);
      }
    }
  }

  /** What is listed in the current directory. */
  function ListingAt(t: Tree, cwd: Cwd): Bytes {
    if cwd.depth == 0 then t.root else if cwd.cluster in t.dirs then t.dirs[cwd.cluster] else []
  }

  lemma ListedAt(t: Tree, cwd: Cwd, p: seq<int>)
    requires WellFormed(t) && Stands(t, cwd, p)
    ensures (Top(p) == 0 || Top(p) in t.dirs) && ListingAt(t, cwd) == ListingOf(t, Top(p))
    ensures cwd.cluster == 0 <==> cwd.depth == 0
  {
    TopIsListed(t, p);
    RootIsNoSubdirectory(t);
  }

  /** Any number of calls. */
  function EnteredAll(t: Tree, cwd: Cwd, names: seq<Bytes>): Cwd {
    if names == [] then cwd
    else
      var n := |names| - 1;
      var before := EnteredAll(t, cwd, names[..n]);
      Entered(before, ListingAt(t, before), names[n]).0
  }

  function WalkedAll(t: Tree, p: seq<int>, names: seq<Bytes>): seq<int> {
    if names == [] then p
    else
      var n := |names| - 1;
      var before := WalkedAll(t, p, names[..n]);
      if Top(before) == 0 || Top(before) in t.dirs then Walked(t, before, names[n]).0 else before
  }

  /** Every run of chdir, from the root or from anywhere else, follows the paths. */
  lemma {:induction false} RunWalks(t: Tree, cwd: Cwd, p: seq<int>, names: seq<Bytes>)
    requires WellFormed(t) && Stands(t, cwd, p)
    ensures Stands(t, EnteredAll(t, cwd, names), WalkedAll(t, p, names))
    decreases |names|
  {
    hide WellFormed, Stands, Entered, Walked;
    if names != [] {
      var n := |names| - 1;
      RunWalks(t, cwd, p, names[..n]);
      var cwd', p' := EnteredAll(t, cwd, names[..n]), WalkedAll(t, p, names[..n]);
      ListedAt(t, cwd', p');
      ChdirWalks(t, cwd', p', names[n]);
    }
  }

  /** Entering a directory and then ".." leads back. */
  lemma EnterAndLeave(t: Tree, cwd: Cwd, p: seq<int>, name: Bytes)
    requires WellFormed(t) && Stands(t, cwd, p) && name != UP && name != HERE
    requires Entered(cwd, ListingAt(t, cwd), name).1 == 0
    ensures EnteredAll(t, cwd, [name, UP]) == cwd
  {
    hide WellFormed, Entered, Subdirectory;
    ListedAt(t, cwd, p);
    ChdirWalks(t, cwd, p, name);
    TwoCalls(t, cwd, p, name, UP);
    var p' := Walked(t, p, name).0;
    RunWalks(t, cwd, p, [name, UP]);
    assert p'[..|p'| - 1] == p;
  }

  lemma TwoCalls(t: Tree, cwd: Cwd, p: seq<int>, first: Bytes, second: Bytes)
    requires Top(p) == 0 || Top(p) in t.dirs
    ensures EnteredAll(t, cwd, [first, second])
         == var cwd' := Entered(cwd, ListingAt(t, cwd), first).0; Entered(cwd', ListingAt(t, cwd'), second).0
    ensures var p' := Walked(t, p, first).0;
      WalkedAll(t, p, [first, second]) == if Top(p') == 0 || Top(p') in t.dirs then Walked(t, p', second).0 else p'
  {
    hide Entered, Walked;
    assert [first, second][..1] == [first] && [first][..0] == [];
    assert EnteredAll(t, cwd, [first]) == Entered(cwd, ListingAt(t, cwd), first).0;
    assert WalkedAll(t, p, [first]) == Walked(t, p, first).0;
  }

  /** The depth is what it has to be for the cluster. */
  lemma DepthDetermined(t: Tree, a: Cwd, p: seq<int>, b: Cwd, q: seq<int>)
    requires WellFormed(t) && Stands(t, a, p) && Stands(t, b, q) && a.cluster == b.cluster
    ensures a == b && p == q
  {
    OnePath(t, p, q);
  }
}
