/** kernel/fat.c: reading, writing and seeking in files. */
module FatFiles {
  import opened MachineWords
  import opened Arithmetic
  import opened Clusters
  import opened FileWrites
  import opened ByteStrings
  import CStrings

  /** 128 sectors, the most a cluster may have, of 512 bytes. */
  const LARGEST_CLUSTER: int := 128 * 512

  class File {
    const cluster: u16
    var filesize: u32
    var offset: u32

    constructor (cluster: u16, filesize: u32)
      ensures this.cluster == cluster && this.filesize == filesize && offset == 0
    {
      this.cluster, this.filesize, offset := cluster, filesize, 0;
    }
  }

  datatype Whence = SeekSet | SeekCur | SeekEnd | SeekOther

  /** Where fseek goes: 32-bit words, and the offset taken off the end. */
  function Sought(offset: u32, filesize: u32, move: i32, whence: Whence): u32 {
    match whence
    case SeekSet => move % TWO32
    case SeekCur => (offset + move) % TWO32
    case SeekEnd => (filesize - move) % TWO32
    case SeekOther => offset
  }

  /** Where section 7.19.9.2 of ISO/IEC 9899:1999 says that it should: the offset is added
      to the beginning, the position or the end of the file. */
  function StandardPosition(offset: u32, filesize: u32, move: i32, whence: Whence): int {
    move + match whence
    case SeekSet => 0
    case SeekCur => offset
    case SeekEnd => filesize
    case SeekOther => offset
  }

  /** The offsets for which both agree. */
  predicate SeeksRight(offset: u32, filesize: u32, move: i32, whence: Whence) {
    match whence
    case SeekSet => move >= 0
    case SeekCur => 0 <= offset + move < TWO32
    case SeekEnd => move == 0 || (move == -TWO31 && filesize >= TWO31)
    case SeekOther => move == 0
  }

  lemma SeekAsStandard(offset: u32, filesize: u32, move: i32, whence: Whence)
    ensures Sought(offset, filesize, move, whence) == StandardPosition(offset, filesize, move, whence)
       <==> SeeksRight(offset, filesize, move, whence)
  {
    Wrapped(move);
    Wrapped(offset + move);
    Wrapped(filesize - move);
  }

  lemma Wrapped(x: int)
    requires -TWO32 <= x < 2 * TWO32
    ensures x % TWO32 == if x < 0 then x + TWO32 else if x < TWO32 then x else x - TWO32
  {
  }

  /** A seek over a distance and the opposite one lead back. */
  lemma SeekBackAndForth(offset: u32, filesize: u32, move: i32)
    requires move != -TWO31
    ensures Sought(Sought(offset, filesize, move, SeekCur), filesize, 0 - move, SeekCur) == offset
  {
    Wrapped(offset + move);
    Wrapped((offset + move) % TWO32 - move);
  }

  /** Chains are short enough for 16-bit indices, files for 32-bit offsets. */
  lemma ChainFits(fat: Table, c: Chain, size: nat)
    requires ValidTable(fat) && IsChain(fat, c) && size <= LARGEST_CLUSTER
    ensures |c| <= 0xFFF7 && |c| * size < TWO32
  {
    forall i, j | 0 <= i < j < |c|
      ensures c[i] != c[j]
    {
      ChainIsAcyclic(fat, c, i, j);
    }
    DistinctBounded(c, |fat|);
    assert |c| * size <= 0xFFF7 * LARGEST_CLUSTER by {
      MulMonotone(|c|, 0xFFF7, size, LARGEST_CLUSTER);
    }
  }

  /** The cluster of a chain and the byte in it where a position of the file lies. */
  lemma Locate(offset: nat, size: nat, n: nat)
    requires size > 0 && offset <= n * size
    ensures 0 <= offset / size <= n && 0 <= offset % size < size
    ensures offset == offset / size * size + offset % size
    ensures offset < n * size ==> offset / size < n
    ensures offset == n * size ==> offset / size == n
  {
    var q, r := Divide(offset, size);
    if q > n {
      MulMonotone(n + 1, q, size, size);
      MulSucc(n, size);
    }
    if offset == n * size {
      DivUnique(offset, size, n, 0);
    }
    if q == n {
      assert size * q == n * size;
    }
  }

  class FatFs {
    const fat: array<u16>
    const disk: array<Bytes>
    const bytesPerCluster: nat

    ghost predicate Valid()
      reads fat, disk
    {
      Disk(fat[..], disk[..], bytesPerCluster) && 0 < bytesPerCluster <= LARGEST_CLUSTER
    }

    constructor (fat: array<u16>, disk: array<Bytes>, bytesPerCluster: nat)
      ensures this.fat == fat && this.disk == disk && this.bytesPerCluster == bytesPerCluster
    {
      this.fat, this.disk, this.bytesPerCluster := fat, disk, bytesPerCluster;
    }

    /** `get_nth_cluster`. One step beyond the end marker it would look up the marker
        itself, which is no cluster; two or more steps beyond, it notices. */
    method GetNthCluster(start: u16, count: u16, ghost c: Chain) returns (cluster: u16)
      requires Valid()
      requires if c == [] then count == 0 else IsChain(fat[..], c) && c[0] == start && count != |c| + 1
      ensures cluster == if c == [] then start else if count < |c| then c[count] else END
    {
      cluster := start;
      var left: int := count;
      while left > 0
        invariant 0 <= left <= count
        invariant c == [] ==> left == 0 && cluster == start
        invariant c != [] ==>
          if count - left < |c| then cluster == c[count - left] else count - left == |c| && cluster == END
      {
        left := left - 1;
        if left > 0 && cluster == END {
          return END;
        }
        ghost var i := count - left - 1;
        assert i < |c| - 1 ==> fat[..][c[i]] == c[i + 1];
        cluster := fat[cluster];
      }
    }

    /** `allocate_cluster` */
    method AllocateCluster(current: u16) returns (cluster: u16)
      requires Valid() && current < fat.Length
      modifies fat
      ensures (fat[..], cluster) == old(Allocate(fat[..], current))
      ensures forall j :: 1 <= j < fat.Length && (cluster == 0 || j < cluster) ==> old(fat[j]) != 0
      ensures cluster == 0 ==> fat[..] == old(fat[..])
      ensures cluster != 0 ==>
        && cluster < fat.Length && old(fat[cluster]) == 0 && fat[cluster] == 0xFFFF
        && (current != cluster ==> fat[current] == cluster)
        && forall x :: 0 <= x < fat.Length && x != current && x != cluster ==> fat[x] == old(fat[x])
    {
      AllocatesLeast(fat[..], current);
      ghost var was: Table := fat[..];
      var i := 1;
      while i < fat.Length
        invariant 1 <= i <= fat.Length && unchanged(fat)
        invariant FirstFree(was, 1) == FirstFree(was, i)
      {
        if fat[i] == 0 {
          fat[current] := i;
          fat[i] := END;
          return i;
        }
        i := i + 1;
      }
      return 0;
    }

    /** `fseek`; the offset is a signed 32-bit `long`. */
    method Fseek(stream: File, offset: i32, whence: Whence) returns (r: int)
      modifies stream`offset
      ensures r == -1 <==> whence.SeekOther?
      ensures r == -1 || r == 0
      ensures stream.offset == Sought(old(stream.offset), stream.filesize, offset, whence)
      ensures whence.SeekSet? && offset >= 0 ==> stream.offset == offset
      ensures whence.SeekCur? && 0 <= old(stream.offset) + offset < 0x1_0000_0000 ==>
        stream.offset == old(stream.offset) + offset
      ensures whence.SeekEnd? && 0 <= offset <= stream.filesize ==> stream.offset == stream.filesize - offset
      ensures whence.SeekOther? ==> stream.offset == old(stream.offset)
      ensures stream.offset == StandardPosition(old(stream.offset), stream.filesize, offset, whence)
         <==> SeeksRight(old(stream.offset), stream.filesize, offset, whence)
    {
      SeekAsStandard(stream.offset, stream.filesize, offset, whence);
      match whence
      case SeekSet =>
        stream.offset := offset % TWO32;
        return 0;
      case SeekCur =>
        stream.offset := (stream.offset + offset) % TWO32;
        return 0;
      case SeekEnd =>
        stream.offset := (stream.filesize - offset) % TWO32;
        return 0;
      case SeekOther =>
        return -1;
    }

    /** The file that a stream has open. */
    ghost predicate Opens(stream: File, c: Chain)
      reads fat
    {
      c != [] ==> IsChain(fat[..], c) && c[0] == stream.cluster
    }

    /** The bytes of the clusters of a file, the last one's whether in use or not. */
    ghost function Content(c: Chain): Bytes
      requires Valid() && (c != [] ==> IsChain(fat[..], c))
      reads fat, disk
    {
      Flat(disk[..], c)
    }

    /** Where fread and fwrite start. */
    method Position(stream: File, ghost c: Chain) returns (cluster: u16, o: nat)
      requires Valid() && Opens(stream, c) && stream.offset <= |c| * bytesPerCluster
      ensures o == stream.offset % bytesPerCluster < bytesPerCluster
      ensures stream.offset < |c| * bytesPerCluster ==>
        && 0 <= stream.offset / bytesPerCluster < |c| && 0 < cluster == c[stream.offset / bytesPerCluster] < fat.Length
        && stream.offset == stream.offset / bytesPerCluster * bytesPerCluster + o
    {
      Opened(stream, c);
      cluster := GetNthCluster(stream.cluster, stream.offset / bytesPerCluster % TWO16, c);
      o := stream.offset % bytesPerCluster;
    }

    /** `fread`: the bytes from the offset on, as many as were asked for and the file has. */
    method Fread(buf: array<u8>, size: u32, n: u32, stream: File, ghost c: Chain) returns (count: u32)
      requires Valid() && Opens(stream, c)
      requires stream.offset <= stream.filesize <= |c| * bytesPerCluster
      requires Min(Mul32(n, size), stream.filesize - stream.offset) <= buf.Length
      modifies buf, stream`offset
      ensures count == Min(Mul32(n, size), stream.filesize - old(stream.offset))
      ensures n * size < 0x1_0000_0000 ==> count == Min(n * size, stream.filesize - old(stream.offset))
      ensures count == Min(n * size - n * size / 0x1_0000_0000 * 0x1_0000_0000, stream.filesize - old(stream.offset))
      ensures stream.offset == old(stream.offset) + count && stream.offset <= |Content(c)|
      ensures buf[..count] == Content(c)[old(stream.offset)..stream.offset]
      ensures buf[count..] == old(buf[count..])
    {
      hide Flat, IsChain, ValidTable, ValidData, Mul32;
      Mul32Is(n, size);
      var total: u32 := Mul32(n, size);
      Opened(stream, c);
      count := ReadClusters(buf, total, stream, c);
    }

    /** The loop of fread. */
    method ReadClusters(buf: array<u8>, total: u32, stream: File, ghost c: Chain) returns (count: u32)
      requires Valid() && Opens(stream, c)
      requires stream.offset <= stream.filesize <= |c| * bytesPerCluster
      requires Min(total, stream.filesize - stream.offset) <= buf.Length
      modifies buf, stream`offset
      ensures count == Min(total, stream.filesize - old(stream.offset))
      ensures stream.offset == old(stream.offset) + count && stream.offset <= |Content(c)|
      ensures buf[..count] == Content(c)[old(stream.offset)..stream.offset]
      ensures buf[count..] == old(buf[count..])
    {
      hide Flat, IsChain, ValidTable, ValidData;
      ghost var was := buf[..];
      var toRead: nat, done: nat := total, 0;
      ghost var first, want := stream.offset, Min(total, stream.filesize - stream.offset);
      Opened(stream, c);
      ghost var s, q: nat := Content(c), stream.offset / bytesPerCluster;
      var curCluster, offset := Position(stream, c);
      while toRead > 0
        invariant done == total - toRead <= want && stream.offset == first + done <= |s|
        invariant toRead > 0 && stream.offset < stream.filesize ==>
          && q < |c| && curCluster == c[q] && 0 <= offset < bytesPerCluster
          && stream.offset == q * bytesPerCluster + offset
        invariant buf[..done] == s[first..stream.offset] && buf[..][done..] == was[done..]
        decreases toRead
      {
        if stream.filesize == stream.offset {
          break;
        }
        var r;
        ghost var from, before := stream.offset, buf[..];
        r, offset, curCluster := ReadCluster(buf, done, toRead, curCluster, offset, stream, c, q);
        SlicesJoin(s, first, from, stream.offset);
        SameRest(before, was, done, done + r);
        assert buf[..][done + r..] == buf[done + r..] && before[done + r..] == was[done + r..];
        toRead, done, q := toRead - r, done + r, q + 1;
      }
      count := total - toRead;
    }

    /** One turn of the loop of fread, from the q-th cluster of the file. */
    method ReadCluster(buf: array<u8>, at: nat, toRead: nat, cur: u16, o: nat, stream: File,
                       ghost c: Chain, ghost q: nat)
      returns (r: nat, o': nat, next: u16)
      requires Valid() && IsChain(fat[..], c) && q < |c| && cur == c[q] && o < bytesPerCluster
      requires stream.offset == q * bytesPerCluster + o < stream.filesize <= |c| * bytesPerCluster
      requires 0 < toRead && at + Min(toRead, stream.filesize - stream.offset) <= buf.Length
      modifies buf, stream`offset
      ensures 0 < r == Min(Min(toRead, bytesPerCluster - o), stream.filesize - old(stream.offset))
      ensures stream.offset == old(stream.offset) + r <= |Content(c)|
      ensures buf[..at + r] == old(buf[..at]) + Content(c)[old(stream.offset)..stream.offset]
      ensures buf[at + r..] == old(buf[at + r..])
      ensures r < toRead && stream.offset < stream.filesize ==>
        q + 1 < |c| && next == c[q + 1] && o' == 0 && stream.offset == (q + 1) * bytesPerCluster
    {
      hide Flat, IsChain, ValidTable;
      r := Min(toRead, bytesPerCluster - o);
      r := Min(r, stream.filesize - stream.offset);
      ReadTurn(c, q, o, r);
      var buffer := disk[cur];
      CStrings.Memcpy(buf, at, buffer[o..o + r]);
      stream.offset := stream.offset + r;
      o' := (o + r) % bytesPerCluster;
      next := fat[cur];
    }

    /** One turn of fread, seen in the whole file: a turn that is not the last one fills
        its cluster, so that moving on to the next cluster on every turn does no harm. */
    lemma ReadTurn(c: Chain, q: nat, o: nat, r: nat)
      requires Valid() && IsChain(fat[..], c) && q < |c| && o < bytesPerCluster && 0 < r <= bytesPerCluster - o
      ensures c[q] < fat.Length && q * bytesPerCluster + o + r <= |Content(c)| == |c| * bytesPerCluster
      ensures Content(c)[q * bytesPerCluster + o..q * bytesPerCluster + o + r] == disk[c[q]][o..o + r]
      ensures r == bytesPerCluster - o ==>
        && (o + r) % bytesPerCluster == 0 && q * bytesPerCluster + o + r == (q + 1) * bytesPerCluster
      ensures q * bytesPerCluster + o + r < |c| * bytesPerCluster && r == bytesPerCluster - o ==>
        q + 1 < |c| && fat[c[q]] == c[q + 1]
    {
      FlatSlice(disk[..], c, q, bytesPerCluster, o, r);
      FlatLength(disk[..], c, bytesPerCluster);
      MulSucc(q, bytesPerCluster);
      if r == bytesPerCluster - o {
        DivUnique(o + r, bytesPerCluster, 1, 0);
      }
      hide Flat;
      if q + 1 < |c| {
        assert fat[..][c[q]] == c[q + 1];
      }
    }

    /** One turn of the loop of fwrite; the next cluster is 0 if none was free. */
    method WriteCluster(bytes: Bytes, cur: u16, o: nat, stream: File) returns (r: nat, o': nat, next: u16)
      requires Valid() && 0 < cur < fat.Length && o < bytesPerCluster && 0 < |bytes| < TWO32
      modifies fat, disk, stream`offset
      ensures Valid() && 0 < r <= |bytes| && 0 <= o' < bytesPerCluster && next < fat.Length
      ensures stream.offset == Add32(old(stream.offset), r)
      ensures r == |bytes| || next == 0 ==>
        old(WriteFrom(fat[..], disk[..], bytesPerCluster, cur, o, bytes)) == Outcome(fat[..], disk[..], r)
      ensures r < |bytes| && next != 0 ==>
        var rest := WriteFrom(fat[..], disk[..], bytesPerCluster, next, o', bytes[r..]);
        old(WriteFrom(fat[..], disk[..], bytesPerCluster, cur, o, bytes)) == rest.(written := r + rest.written)
    {
      hide Flat, IsChain, FirstFree, Overwrite, WriteFrom, Allocate, Add32;
      WriteTurn(fat[..], disk[..], bytesPerCluster, cur, o, bytes);
      r := Min(|bytes|, bytesPerCluster - o);
      var buffer := disk[cur];
      buffer := Overwrite(buffer, o, bytes[..r]);
      disk[cur] := buffer;
      stream.offset := Add32(stream.offset, r);
      o' := (o + r) % bytesPerCluster;
      next := cur;
      if fat[cur] == END && r < |bytes| {
        next := AllocateCluster(cur);
      }
    }

    /** `fwrite`, in any cluster of a file: what WriteFrom says; and where that is what it is
        meant to be, `added` are the clusters that the file gained. */
    method Fwrite(ptr: Bytes, size: u32, n: u32, stream: File, ghost c: Chain)
      returns (count: u32, ghost added: Chain)
      requires Valid() && IsChain(fat[..], c) && c[0] == stream.cluster
      requires stream.offset < |c| * bytesPerCluster
      requires Mul32(n, size) <= |ptr|
      modifies fat, disk, stream`offset, stream`filesize
      ensures Valid()
      ensures var q, o := old(stream.offset) / bytesPerCluster, old(stream.offset) % bytesPerCluster;
        && 0 <= q < |c| && 0 <= o < bytesPerCluster && c[q] < fat.Length
        && Outcome(fat[..], disk[..], count)
           == old(WriteFrom(fat[..], disk[..], bytesPerCluster, c[q], o, ptr[..Mul32(n, size)]))
        && (q == |c| - 1 || o + Mul32(n, size) <= bytesPerCluster ==>
              && old(stream.offset) + count <= |c + added| * bytesPerCluster < TWO32
              && FileWrite(old(fat[..]), old(disk[..]), bytesPerCluster, c, q, o, ptr[..Mul32(n, size)],
                           Outcome(fat[..], disk[..], count), added))
      ensures stream.offset == Add32(old(stream.offset), count)
      ensures stream.filesize == Max(old(stream.filesize), stream.offset)
      ensures Mul32(n, size) == n * size - n * size / 0x1_0000_0000 * 0x1_0000_0000
      ensures n * size < 0x1_0000_0000 ==>
        && n * size <= |ptr| && count <= n * size
        && Outcome(fat[..], disk[..], count)
           == old(WriteFrom(fat[..], disk[..], bytesPerCluster, c[stream.offset / bytesPerCluster],
                            stream.offset % bytesPerCluster, ptr[..n * size]))
    {
      hide Flat, IsChain, ValidTable, ValidData, FirstFree, Overwrite, WriteFrom, Add32, Mul32;
      Mul32Is(n, size);
      var total: u32 := Mul32(n, size);
      var cur, o := Position(stream, c);
      ghost var q, at := stream.offset / bytesPerCluster, stream.offset;
      added := [];
      ghost var fat0: Table, disk0: seq<Bytes> := fat[..], disk[..];
      WritesNoMore(fat0, disk0, bytesPerCluster, cur, o, ptr[..total]);
      count := WriteClusters(ptr[..total], cur, o, stream);
      if q == |c| - 1 || o + total <= bytesPerCluster {
        added := FaithfulHere(fat0, disk0, bytesPerCluster, c, q, o, ptr[..total]);
        WrittenInside(fat0, disk0, c, q, o, ptr[..total], Outcome(fat[..], disk[..], count), added);
      }
      if stream.offset > stream.filesize {
        stream.filesize := stream.offset;
      }
    }

    lemma WrittenInside(fat0: Table, disk0: seq<Bytes>, c: Chain, q: nat, o: nat, bytes: Bytes,
                        out: Outcome, added: Chain)
      requires Disk(fat0, disk0, bytesPerCluster) && 0 < bytesPerCluster <= LARGEST_CLUSTER && q < |c|
      requires FileWrite(fat0, disk0, bytesPerCluster, c, q, o, bytes, out, added) && |disk0| == |out.data|
      ensures q * bytesPerCluster + o + out.written <= |c + added| * bytesPerCluster < TWO32
    {
      FlatLength(disk0, c + added, bytesPerCluster);
      ChainFits(out.fat, c + added, bytesPerCluster);
    }

    /** The loop of fwrite. */
    method WriteClusters(bytes: Bytes, cur: u16, o: nat, stream: File) returns (count: u32)
      requires Valid() && 0 < cur < fat.Length && o < bytesPerCluster && |bytes| < TWO32
      modifies fat, disk, stream`offset
      ensures Valid()
      ensures Outcome(fat[..], disk[..], count) == old(WriteFrom(fat[..], disk[..], bytesPerCluster, cur, o, bytes))
      ensures stream.offset == Add32(old(stream.offset), count)
    {
      hide Flat, IsChain, ValidTable, FirstFree, Overwrite, WriteFrom, Disk, Add32;
      var toWrite: nat, curCluster: u16, offset: nat := |bytes|, cur, o;
      count := 0;
      ghost var all := WriteFrom(fat[..], disk[..], bytesPerCluster, cur, o, bytes);
      WriteNothing(fat[..], disk[..], bytesPerCluster, cur, o);
      AddNothing(stream.offset);
      while toWrite > 0
        invariant 0 <= count == |bytes| - toWrite && stream.offset == Add32(old(stream.offset), count)
        invariant Valid() && 0 < curCluster < fat.Length && 0 <= offset < bytesPerCluster
        invariant toWrite > 0 ==>
          var rest := WriteFrom(fat[..], disk[..], bytesPerCluster, curCluster, offset, bytes[count..]);
          all == rest.(written := count + rest.written)
        invariant toWrite == 0 ==> all == Outcome(fat[..], disk[..], count)
        decreases toWrite
      {
        var r;
        var left := bytes[count..];
        r, offset, curCluster := WriteCluster(left, curCluster, offset, stream);
        AddTwice(old(stream.offset), count, r);
        assert left[r..] == bytes[count + r..];
        toWrite, count := toWrite - r, count + r;
        if curCluster == 0 {
          break;
        }
      }
    }

    /** What was written is there to be read: fwrite, fseek back, fread of the count that
        fwrite returned, across however many new clusters the write took. */
    method WriteSeekRead(ptr: Bytes, size: u32, n: u32, buf: array<u8>, stream: File, ghost c: Chain)
      returns (written: u32, got: u32)
      requires Valid() && IsChain(fat[..], c) && c[0] == stream.cluster
      requires stream.offset <= stream.filesize <= |c| * bytesPerCluster && stream.offset < |c| * bytesPerCluster
      requires Mul32(n, size) <= |ptr| && Mul32(n, size) <= buf.Length
      requires
        || stream.offset / bytesPerCluster == |c| - 1
        || stream.offset % bytesPerCluster + Mul32(n, size) <= bytesPerCluster
      modifies fat, disk, buf, stream`offset, stream`filesize
      ensures got == written <= Mul32(n, size) && buf[..written] == ptr[..written]
      ensures written < Mul32(n, size) ==> FreeCount(fat[..]) == 0
      ensures n * size < 0x1_0000_0000 ==> written <= n * size && (written < n * size ==> FreeCount(fat[..]) == 0)
      ensures stream.filesize == Max(old(stream.filesize), old(stream.offset) + written)
    {
      hide Flat, IsChain, ValidTable, ValidData, Overwrite, WriteFrom, Mul32, FreeCount, Touches, Add32, Signed32;
      Mul32Is(n, size);
      var start := stream.offset;
      ghost var added;
      ghost var q, o := start / bytesPerCluster, start % bytesPerCluster;
      ghost var fat0: Table, disk0: seq<Bytes> := fat[..], disk[..];
      Opened(stream, c);
      written, added := Fwrite(ptr, size, n, stream, c);
      Add32Exact(start, written);
      WrittenIsRead(fat0, disk0, c, q, o, ptr[..Mul32(n, size)], Outcome(fat[..], disk[..], written), added);
      MulMonotone(|c|, |c + added|, bytesPerCluster, bytesPerCluster);
      got := SeekRead(start, written, buf, stream, c + added);
      assert q * bytesPerCluster + o == start;
      assert ptr[..Mul32(n, size)][..written] == ptr[..written];
    }

    method SeekRead(start: u32, count: u32, buf: array<u8>, stream: File, ghost c: Chain) returns (got: u32)
      requires Valid() && c != [] && Opens(stream, c)
      requires start + count <= stream.filesize <= |c| * bytesPerCluster && count <= buf.Length
      modifies buf, stream`offset
      ensures got == count && start + count <= |Content(c)| && buf[..count] == Content(c)[start..start + count]
    {
      hide Flat, IsChain, ValidTable, ValidData, Mul32, Signed32;
      var _ := Fseek(stream, Signed32(start), SeekSet);
      Signed32Back(start);
      OneTimes(count);
      got := Fread(buf, 1, count, stream, c);
    }

    lemma WrittenIsRead(fat0: Table, disk0: seq<Bytes>, c: Chain, q: nat, o: nat, bytes: Bytes,
                        out: Outcome, added: Chain)
      requires Disk(fat0, disk0, bytesPerCluster) && q < |c| && |bytes| < TWO32
      requires FileWrite(fat0, disk0, bytesPerCluster, c, q, o, bytes, out, added)
      ensures var at := q * bytesPerCluster + o;
        && 0 <= at <= at + out.written <= |Flat(out.data, c + added)|
        && Flat(out.data, c + added)[at..at + out.written] == bytes[..out.written]
    {
      var at := q * bytesPerCluster + o;
      assert Overwrite(Flat(disk0, c + added), at, bytes[..out.written])[at..at + out.written] == bytes[..out.written];
    }

    /** What the file behind a stream has to do with the fixed-width words it is kept in. */
    lemma Opened(stream: File, c: Chain)
      requires Valid() && Opens(stream, c) && stream.offset <= |c| * bytesPerCluster
      ensures |c| * bytesPerCluster < TWO32 && |c| <= 0xFFF7 && |Content(c)| == |c| * bytesPerCluster
      ensures var q := stream.offset / bytesPerCluster;
        && 0 <= q <= |c| && q % TWO16 == q && stream.offset == q * bytesPerCluster + stream.offset % bytesPerCluster
        && 0 <= stream.offset % bytesPerCluster < bytesPerCluster
        && (stream.offset < |c| * bytesPerCluster ==> q < |c|)
    {
      if c != [] {
        ChainFits(fat[..], c, bytesPerCluster);
      }
      FlatLength(disk[..], c, bytesPerCluster);
      Locate(stream.offset, bytesPerCluster, |c|);
    }
  }
}
