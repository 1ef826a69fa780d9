/** The read-only file system: block-wise reads of a file, and the directory. */
module FileSystem {
  // The code is read_data, read_dentry_by_index, read_dentry_by_name and dir_read.

  import opened Wrappers

  const FILENAME_LEN := 32
  const BYTES_PER_BLOCK := 4096
  const TWO_TO_32 := 0x1_0000_0000

  /** A size as the 32-bit word that the caller passed; the code takes it now as unsigned, now as signed. */
  type Size = n: nat | n < TWO_TO_32

  function Signed(n: Size): int {
    if n < TWO_TO_32 / 2 then n else n - TWO_TO_32
  }

  /** Both views of a word agree up to a multiple of 2 to the 32nd. */
  lemma SignedIsWord(n: Size)
    ensures -0x8000_0000 <= Signed(n) < 0x8000_0000 && Signed(n) % 0x1_0000_0000 == n
  {
  }

  datatype Dentry = Dentry(filename: seq<char>, filetype: int, inode: nat)

  datatype Inode = Inode(length: nat, blockNums: seq<nat>)

  /** The module that the boot loader leaves in memory, as 4096-byte blocks: boot block, inodes, data. */
  datatype Image = Image(dentries: seq<Dentry>, dirCount: nat, inodes: seq<Inode>, blocks: seq<seq<char>>) {
    predicate Valid() {
      && dirCount <= |dentries|
      && (forall d | 0 <= d < |dentries| :: |dentries[d].filename| == FILENAME_LEN && dentries[d].inode < |inodes|)
      && (forall b | 0 <= b < |blocks| :: |blocks[b]| == BYTES_PER_BLOCK)
      && (forall n | 0 <= n < |inodes| :: Sound(inodes[n]))
    }

    predicate Sound(n: Inode) {
      && n.length <= BYTES_PER_BLOCK * |n.blockNums|
      && forall j | 0 <= j < |n.blockNums| :: DataBlocks() + n.blockNums[j] - 1 < |blocks|
    }

    /** `fs.data_blocks`, in blocks from the start: one past the first data block. */
    function DataBlocks(): nat {
      |inodes| + 2
    }

    /** The `j`-th block of a file: its block number counts from the first data block. */
    function Block(n: Inode, j: nat): (block: seq<char>)
      requires Valid() && Sound(n) && j < |n.blockNums|
      ensures |block| == BYTES_PER_BLOCK
    {
      blocks[DataBlocks() + n.blockNums[j] - 1]
    }

    function Byte(n: Inode, i: nat): char
      requires Valid() && Sound(n) && i < n.length
    {
      Block(n, i / BYTES_PER_BLOCK)[i % BYTES_PER_BLOCK]
    }

    /** The file as a flat sequence of bytes. */
    function Flat(inode: nat): (bytes: seq<char>)
      requires Valid() && inode < |inodes|
      ensures |bytes| == inodes[inode].length
    {
      seq(inodes[inode].length, i requires 0 <= i < inodes[inode].length => Byte(inodes[inode], i))
    }
  }

  // ---------- where a file lies ----------

  /** The module: the boot block, one block for each inode, and the data blocks, which are numbered from 0 on. */
  ghost predicate LaidOut(fs: Image, boot: seq<char>, inodeBlocks: seq<seq<char>>, data: seq<seq<char>>) {
    fs.Valid() && fs.blocks == [boot] + inodeBlocks + data && |inodeBlocks| == |fs.inodes|
  }

  lemma DataBlockIs(fs: Image, boot: seq<char>, inodeBlocks: seq<seq<char>>, data: seq<seq<char>>, n: nat, j: nat)
    requires LaidOut(fs, boot, inodeBlocks, data) && n < |fs.inodes| && j < |fs.inodes[n].blockNums|
    ensures fs.inodes[n].blockNums[j] < |data| && fs.Block(fs.inodes[n], j) == data[fs.inodes[n].blockNums[j]]
  {
    assert fs.Sound(fs.inodes[n]);
  }

  /** Data block `j` of a file holds its bytes from 4096 * j on. */
  ghost predicate Carries(data: seq<seq<char>>, node: Inode, content: seq<char>, j: nat)
    requires j < |node.blockNums| && node.blockNums[j] < |data|
  {
    forall i | 4096 * j <= i < 4096 * (j + 1) && i < |content| ::
      i - 4096 * j < |data[node.blockNums[j]]| && data[node.blockNums[j]][i - 4096 * j] == content[i]
  }

  /** A file whose contents have been put into the data blocks that its inode lists is what is read from it. */
  lemma StoredFileIsRead(fs: Image, boot: seq<char>, inodeBlocks: seq<seq<char>>, data: seq<seq<char>>,
                         n: nat, content: seq<char>)
    requires LaidOut(fs, boot, inodeBlocks, data) && n < |fs.inodes| && fs.inodes[n].length == |content|
    requires forall j | 0 <= j < |fs.inodes[n].blockNums| ::
               fs.inodes[n].blockNums[j] < |data| && Carries(data, fs.inodes[n], content, j)
    ensures fs.Flat(n) == content
  {
    var node := fs.inodes[n];
    assert fs.Sound(node);
    forall i | 0 <= i < |content|
      ensures fs.Byte(node, i) == content[i]
    {
      var j := i / 4096;
      assert 4096 * j <= i < 4096 * (j + 1) && j < |node.blockNums|;
      DataBlockIs(fs, boot, inodeBlocks, data, n, j);
      assert Carries(data, node, content, j);
    }
  }

  // ---------- read_data ----------

  /** A buffer with `bytes` in it from place `at` on. */
  function Spliced(buf: seq<char>, at: nat, bytes: seq<char>): (r: seq<char>)
    requires at + |bytes| <= |buf|
    ensures |r| == |buf|
  {
    buf[..at] + bytes + buf[at + |bytes|..]
  }

  lemma SpliceTwice(buf: seq<char>, at: nat, first: seq<char>, second: seq<char>, spliced: seq<char>, to: nat)
    requires at + |first| + |second| <= |buf| && spliced == Spliced(buf, at, first) && to == at + |first|
    ensures Spliced(spliced, to, second) == Spliced(buf, at, first + second)
  {
  }

  /** `memcpy` into a caller's buffer. */
  method CopyIn(buf: array<char>, at: nat, src: seq<char>)
    requires at + |src| <= buf.Length
    modifies buf
    ensures buf[..] == Spliced(old(buf[..]), at, src)
  {
    var i := 0;
    while i < |src|
      invariant 0 <= i <= |src|
      invariant forall k | 0 <= k < buf.Length :: at <= k < at + i ==> buf[k] == src[k - at]
      invariant forall k | 0 <= k < buf.Length :: !(at <= k < at + i) ==> buf[k] == old(buf[k])
    {
      buf[at + i] := src[i];
      i := i + 1;
    }
  }

  function Min(a: nat, b: nat): nat {
    if a <= b then a else b
  }

  /** A stretch of a file inside one block is a stretch of that block. */
  lemma FlatInBlock(fs: Image, inode: nat, from: nat, n: nat)
    requires fs.Valid() && inode < |fs.inodes| && n > 0 && from + n <= fs.inodes[inode].length
    requires from % BYTES_PER_BLOCK + n <= BYTES_PER_BLOCK
    ensures from / BYTES_PER_BLOCK < |fs.inodes[inode].blockNums|
    ensures var block, start := fs.Block(fs.inodes[inode], from / BYTES_PER_BLOCK), from % BYTES_PER_BLOCK;
            fs.Flat(inode)[from..from + n] == block[start..start + n]
  {
    var node, start := fs.inodes[inode], from % BYTES_PER_BLOCK;
    var block := fs.Block(node, from / BYTES_PER_BLOCK);
    var a, b := fs.Flat(inode)[from..from + n], block[start..start + n];
    forall i | 0 <= i < n
      ensures a[i] == b[i]
    {
      InBlock(from, i);
      assert a[i] == fs.Byte(node, from + i) && b[i] == block[start + i];
    }
  }

  lemma InBlock(from: nat, i: nat)
    requires from % BYTES_PER_BLOCK + i < BYTES_PER_BLOCK
    ensures (from + i) / BYTES_PER_BLOCK == from / BYTES_PER_BLOCK
    ensures (from + i) % BYTES_PER_BLOCK == from % BYTES_PER_BLOCK + i
  {
  }

  lemma NextPlace(from: nat, to: nat)
    requires to == from + (BYTES_PER_BLOCK - from % BYTES_PER_BLOCK)
    ensures to / BYTES_PER_BLOCK == from / BYTES_PER_BLOCK + 1 && to % BYTES_PER_BLOCK == 0
  {
  }

  ghost predicate IsAt(piece: seq<char>, s: seq<char>, from: nat) {
    from + |piece| <= |s| && piece == s[from..from + |piece|]
  }

  lemma Joined(s: seq<char>, from: nat, first: seq<char>, second: seq<char>)
    requires IsAt(first, s, from) && IsAt(second, s, from + |first|)
    ensures IsAt(first + second, s, from)
  {
  }

  lemma NextPiece(fs: Image, inode: nat, offset: nat, read: seq<char>, n: nat)
    requires fs.Valid() && inode < |fs.inodes| && n > 0 && offset + |read| + n <= fs.inodes[inode].length
    requires (offset + |read|) % BYTES_PER_BLOCK + n <= BYTES_PER_BLOCK
    requires IsAt(read, fs.Flat(inode), offset)
    ensures (offset + |read|) / BYTES_PER_BLOCK < |fs.inodes[inode].blockNums|
    ensures var block, start :=
              fs.Block(fs.inodes[inode], (offset + |read|) / BYTES_PER_BLOCK), (offset + |read|) % BYTES_PER_BLOCK;
            IsAt(read + block[start..start + n], fs.Flat(inode), offset)
  {
    FlatInBlock(fs, inode, offset + |read|, n);
    var block, start :=
      fs.Block(fs.inodes[inode], (offset + |read|) / BYTES_PER_BLOCK), (offset + |read|) % BYTES_PER_BLOCK;
    Joined(fs.Flat(inode), offset, read, block[start..start + n]);
  }

  /** One `memcpy` of the loop: the buffer holds a longer stretch of the file after it. */
  method CopyBlock(fs: Image, inode: nat, blockIdx: nat, start: nat, buf: array<char>, to: nat, n: nat,
                   ghost flat: seq<char>, ghost before: seq<char>, ghost offset: nat, ghost read: seq<char>)
    returns (ghost more: seq<char>)
    requires fs.Valid() && inode < |fs.inodes| && flat == fs.Flat(inode) && n > 0
    requires offset + |read| + n <= fs.inodes[inode].length
    requires blockIdx == (offset + |read|) / BYTES_PER_BLOCK && start == (offset + |read|) % BYTES_PER_BLOCK
    requires start + n <= BYTES_PER_BLOCK && |read| <= to && to + n <= buf.Length == |before|
    requires IsAt(read, flat, offset) && buf[..] == Spliced(before, to - |read|, read)
    modifies buf
    ensures |more| == |read| + n && IsAt(more, flat, offset) && buf[..] == Spliced(before, to - |read|, more)
  {
    NextPiece(fs, inode, offset, read, n);
    var block := fs.Block(fs.inodes[inode], blockIdx);
    ghost var piece := block[start..start + n];
    SpliceTwice(before, to - |read|, read, piece, buf[..], to);
    CopyIn(buf, to, block[start..start + n]);
    more := read + piece;
  }

  /** Between two turns of the loop: what is in the buffer, and where the next byte is and goes. */
  ghost predicate Copying(buf: seq<char>, before: seq<char>, at: nat, flat: seq<char>, offset: nat, read: seq<char>,
                          bytesToRead: nat, blockIdx: nat, start: nat, to: nat)
  {
    && at + |read| + bytesToRead <= |before| && IsAt(read, flat, offset) && buf == Spliced(before, at, read)
    && (bytesToRead > 0 ==>
          && to == at + |read| && blockIdx == (offset + |read|) / BYTES_PER_BLOCK
          && start == (offset + |read|) % BYTES_PER_BLOCK)
  }

  /** One turn of the loop: the rest of the block, or what is wanted of it; answers what is left to read. */
  method CopyNext(fs: Image, inode: nat, blockIdx: nat, start: nat, buf: array<char>, to: nat, bytesToRead: nat,
                  ghost flat: seq<char>, ghost before: seq<char>, ghost at: nat, ghost offset: nat,
                  ghost read: seq<char>)
    returns (left: nat, ghost more: seq<char>)
    requires fs.Valid() && inode < |fs.inodes| && flat == fs.Flat(inode) && bytesToRead > 0
    requires offset + |read| + bytesToRead <= fs.inodes[inode].length
    requires Copying(buf[..], before, at, flat, offset, read, bytesToRead, blockIdx, start, to)
    modifies buf
    ensures left < bytesToRead && |more| + left == |read| + bytesToRead
    ensures start < BYTES_PER_BLOCK
    ensures Copying(buf[..], before, at, flat, offset, more, left, blockIdx + 1, 0, to + (BYTES_PER_BLOCK - start))
  {
    if start + bytesToRead >= BYTES_PER_BLOCK {
      more := CopyBlock(fs, inode, blockIdx, start, buf, to, BYTES_PER_BLOCK - start, flat, before, offset, read);
      left := bytesToRead - (BYTES_PER_BLOCK - start);
      NextPlace(offset + |read|, offset + |more|);
    } else {
      more := CopyBlock(fs, inode, blockIdx, start, buf, to, bytesToRead, flat, before, offset, read);
      left := 0;
    }
  }

  lemma CopyBegins(before: seq<char>, at: nat, flat: seq<char>, offset: nat, bytesToRead: nat)
    requires at + bytesToRead <= |before| && offset + bytesToRead <= |flat|
    ensures Copying(before, before, at, flat, offset, [], bytesToRead,
                    offset / BYTES_PER_BLOCK, offset % BYTES_PER_BLOCK, at)
  {
  }

  lemma CopyEnds(buf: seq<char>, before: seq<char>, at: nat, flat: seq<char>, offset: nat, read: seq<char>,
                 blockIdx: nat, start: nat, to: nat, n: nat)
    requires Copying(buf, before, at, flat, offset, read, 0, blockIdx, start, to) && |read| == n
    ensures at + n <= |before| && offset + n <= |flat| && buf == Spliced(before, at, flat[offset..offset + n])
  {
  }

  /** The loop of read_data. */
  method CopyBlocks(fs: Image, inode: nat, offset: nat, buf: array<char>, at: nat, length: nat,
                    ghost flat: seq<char>)
    requires fs.Valid() && inode < |fs.inodes| && flat == fs.Flat(inode)
    requires offset + length <= |flat| && at + length <= buf.Length
    modifies buf
    ensures buf[..] == Spliced(old(buf[..]), at, flat[offset..offset + length])
  {
    var start: nat := offset % BYTES_PER_BLOCK;
    var blockIdx: nat := offset / BYTES_PER_BLOCK;
    var to: nat, bytesToRead: nat := at, length;
    ghost var before, read := buf[..], [];
    CopyBegins(before, at, flat, offset, length);
    while bytesToRead > 0
      invariant |read| + bytesToRead == length
      invariant Copying(buf[..], before, at, flat, offset, read, bytesToRead, blockIdx, start, to)
    {
      bytesToRead, read := CopyNext(fs, inode, blockIdx, start, buf, to, bytesToRead, flat, before, at, offset, read);
      to := to + (BYTES_PER_BLOCK - start);
      blockIdx := blockIdx + 1;
      start := 0;
    }
    CopyEnds(buf[..], before, at, flat, offset, read, blockIdx, start, to, length);
  }

  /** Copies block by block what is one stretch of the flat file, and as much of it as there is. */
  method ReadData(fs: Image, inode: nat, offset: nat, buf: array<char>, at: nat, length: nat) returns (n: int)
    requires fs.Valid() && inode < |fs.inodes|
    requires offset <= |fs.Flat(inode)| ==> at + Min(length, |fs.Flat(inode)| - offset) <= buf.Length
    modifies buf
    ensures offset > |fs.Flat(inode)| ==> n == -1 && buf[..] == old(buf[..])
    ensures offset <= |fs.Flat(inode)| ==>
              && n == Min(length, |fs.Flat(inode)| - offset)
              && buf[..] == Spliced(old(buf[..]), at, fs.Flat(inode)[offset..offset + n])
  {
    var node := fs.inodes[inode];
    if offset > node.length {
      return -1;
    }
    var bytesToRead := if length > node.length - offset then node.length - offset else length;
    CopyBlocks(fs, inode, offset, buf, at, bytesToRead, fs.Flat(inode));
    return bytesToRead;
  }

  // ---------- names ----------

  /** The characters of a C string: up to the first NUL. */
  function CString(s: seq<char>): (r: seq<char>)
    ensures |r| <= |s| && r == s[..|r|] && '\0' !in r
    ensures |r| < |s| ==> s[|r|] == '\0'
  {
    if s == [] || s[0] == '\0' then [] else [s[0]] + CString(s[1..])
  }

  lemma {:induction false} CStringIs(s: seq<char>, n: nat)
    requires n <= |s| && '\0' !in s[..n] && (n < |s| ==> s[n] == '\0')
    ensures CString(s) == s[..n]
  {
    if n == 0 {
    } else {
      assert s[0] in s[..n] && forall c | c in s[1..][..n - 1] :: c in s[..n];
      CStringIs(s[1..], n - 1);
    }
  }

  lemma {:induction false} CStringGoesOn(s: seq<char>, n: nat)
    requires n <= |s| && '\0' !in s[..n]
    ensures |CString(s)| >= n && CString(s)[..n] == s[..n]
  {
    if n == 0 {
    } else {
      assert s[0] in s[..n] && forall c | c in s[1..][..n - 1] :: c in s[..n];
      CStringGoesOn(s[1..], n - 1);
      assert s[..n] == [s[0]] + s[1..][..n - 1];
    }
  }

  /** The part of a C string that a comparison of `n` characters sees. */
  function Clip(s: seq<char>, n: nat): seq<char> {
    CString(s[..Min(n, |s|)])
  }

  /** A character of the kernel's C is signed. */
  function CharValue(c: char): int {
    if 128 <= c as int < 256 then c as int - 256 else c as int
  }

  lemma CharValueIsByte(c: char)
    requires c as int < 256
    ensures -128 <= CharValue(c) < 128 && CharValue(c) % 256 == c as int
  {
  }

  /** The strings differ at place `i` for the first time. */
  ghost predicate DifferAt(s1: seq<char>, s2: seq<char>, i: nat) {
    i < |s1| && i < |s2| && s1[..i] == s2[..i] && '\0' !in s1[..i] && s1[i] != s2[i]
  }

  /** Compares like the library: until a difference, a NUL or `n` characters. */
  method Strncmp(s1: seq<char>, s2: seq<char>, n: nat) returns (r: int)
    requires '\0' in s1 || |s1| >= n
    requires '\0' in s2 || |s2| >= n
    ensures r == 0 <==> Clip(s1, n) == Clip(s2, n)
    ensures r != 0 ==> exists i: nat | i < n :: DifferAt(s1, s2, i) && r == CharValue(s1[i]) - CharValue(s2[i])
  {
    var i := 0;
    while i < n
      invariant 0 <= i <= n && i <= |s1| && i <= |s2|
      invariant s1[..i] == s2[..i] && '\0' !in s1[..i]
    {
      assert i < |s1| && i < |s2|;
      if s1[i] != s2[i] || s1[i] == '\0' {
        ClipAt(s1, n, i);
        ClipAt(s2, n, i);
        return CharValue(s1[i]) - CharValue(s2[i]);
      }
      assert s1[..i + 1] == s1[..i] + [s1[i]] && s2[..i + 1] == s2[..i] + [s2[i]];
      i := i + 1;
    }
    CStringIs(s1[..n], n);
    CStringIs(s2[..n], n);
    return 0;
  }

  /** Two strings with a common beginning differ, or end together, where their next characters say so. */
  lemma ClipAt(s: seq<char>, n: nat, i: nat)
    requires i < n && i < |s| && '\0' !in s[..i]
    ensures if s[i] == '\0' then Clip(s, n) == s[..i]
            else |Clip(s, n)| > i && Clip(s, n)[i] == s[i] && Clip(s, n)[..i] == s[..i]
  {
    var t := s[..Min(n, |s|)];
    assert t[..i] == s[..i];
    if s[i] == '\0' {
      CStringIs(t, i);
    } else {
      assert t[..i + 1] == s[..i] + [s[i]];
      CStringGoesOn(t, i + 1);
      assert CString(t)[..i + 1][..i] == CString(t)[..i];
    }
  }

  lemma ClipOf(name: seq<char>, n: nat)
    requires '\0' !in name
    ensures Clip(name + ['\0'], n) == name[..Min(n, |name|)]
  {
    var s := name + ['\0'];
    var k := Min(n, |name|);
    assert s[..Min(n, |s|)][..k] == name[..k];
    CStringIs(s[..Min(n, |s|)], k);
  }

  /** A comparison over the length of one string tests whether the other begins with it. */
  lemma Prefixed(name: seq<char>, p: seq<char>)
    requires '\0' !in name && '\0' !in p
    ensures Clip(name + ['\0'], |p|) == Clip(p + ['\0'], |p|) <==> p <= name
  {
    ClipOf(name, |p|);
    ClipOf(p, |p|);
  }

  /** The name in a directory entry, which need not end in a NUL. */
  function NameOf(d: Dentry): (name: seq<char>)
    requires |d.filename| == FILENAME_LEN
    ensures |name| <= FILENAME_LEN && '\0' !in name
  {
    CString(d.filename)
  }

  method ReadDentryByIndex(fs: Image, index: nat) returns (r: Option<Dentry>)
    requires fs.Valid()
    ensures r == if index < fs.dirCount then Some(fs.dentries[index]) else None
  {
    if index >= fs.dirCount {
      return None;
    }
    return Some(fs.dentries[index]);
  }

  /** The least index with that name. */
  function Lookup(fs: Image, name: seq<char>): (r: Option<nat>)
    requires fs.Valid()
    ensures r.Some? ==> r.value < fs.dirCount && NameOf(fs.dentries[r.value]) == name
                        && forall j | 0 <= j < r.value :: NameOf(fs.dentries[j]) != name
    ensures r.None? ==> forall j | 0 <= j < fs.dirCount :: NameOf(fs.dentries[j]) != name
  {
    var hits := seq(fs.dirCount, i requires 0 <= i < fs.dirCount => NameOf(fs.dentries[i]) == name);
    assert forall i | 0 <= i < fs.dirCount :: hits[i] == (NameOf(fs.dentries[i]) == name);
    FirstTrue(hits)
  }

  datatype Found = Found(dentry: Dentry) | TooLong | Missing

  lemma SameName(fname: seq<char>, d: Dentry)
    requires |d.filename| == FILENAME_LEN && |fname| <= FILENAME_LEN && '\0' !in fname
    ensures Clip(fname + ['\0'], FILENAME_LEN) == Clip(d.filename, FILENAME_LEN) <==> NameOf(d) == fname
  {
    ClipOf(fname, FILENAME_LEN);
    assert fname[..Min(FILENAME_LEN, |fname|)] == fname && d.filename[..FILENAME_LEN] == d.filename;
  }

  /** The comparison over the whole length of an entry's name tests whether it is that name. */
  method IsNamed(d: Dentry, fname: seq<char>) returns (yes: bool)
    requires |d.filename| == FILENAME_LEN && |fname| <= FILENAME_LEN && '\0' !in fname
    ensures yes <==> NameOf(d) == fname
  {
    var cmp := Strncmp(fname + ['\0'], d.filename, FILENAME_LEN);
    SameName(fname, d);
    return cmp == 0;
  }

  /** `fname` is the caller's string without its NUL. */
  method ReadDentryByName(fs: Image, fname: seq<char>) returns (r: Found)
    requires fs.Valid() && '\0' !in fname
    ensures r == if |fname| > FILENAME_LEN then TooLong
                 else match Lookup(fs, fname)
                   case None => Missing
                   case Some(i) => Found(fs.dentries[i])
  {
    if |fname| > FILENAME_LEN {
      return TooLong;
    }
    ghost var hit := Lookup(fs, fname);
    var i := 0;
    while i < fs.dirCount
      invariant 0 <= i <= fs.dirCount
      invariant forall j | 0 <= j < i :: NameOf(fs.dentries[j]) != fname
    {
      var same := IsNamed(fs.dentries[i], fname);
      if same {
        var d := ReadDentryByIndex(fs, i);
        return Found(d.value);
      }
      i := i + 1;
    }
    return Missing;
  }

  // ---------- dir_read ----------

  /** What strncpy leaves in a buffer of `n` bytes: the string, cut or filled up with NULs. */
  function Padded(src: seq<char>, n: nat): (bytes: seq<char>)
    ensures |bytes| == n
  {
    var text := CString(src);
    if |text| >= n then text[..n] else text + seq(n - |text|, _ => '\0')
  }

  lemma PaddedAt(src: seq<char>, n: nat, i: nat)
    requires i < n && i <= |src| && '\0' !in src[..i]
    ensures i < |src| && src[i] != '\0' ==> Padded(src, n)[i] == src[i]
    ensures i == |src| || src[i] == '\0' ==> forall j | i <= j < n :: Padded(src, n)[j] == '\0'
  {
    if i < |src| && src[i] != '\0' {
      assert src[..i + 1] == src[..i] + [src[i]];
      CStringGoesOn(src, i + 1);
      assert CString(src)[..i + 1][i] == src[i];
    } else {
      CStringIs(src, i);
    }
  }

  /** The copy stops at the end of the array where the library would look one byte further. */
  method Strncpy(buf: array<char>, at: nat, src: seq<char>, n: nat)
    requires at + n <= buf.Length
    modifies buf
    ensures buf[..] == Spliced(old(buf[..]), at, Padded(src, n))
  {
    ghost var before, goal := buf[..], Padded(src, n);
    var i := 0;
    while i < |src| && src[i] != '\0' && i < n
      invariant 0 <= i <= n && i <= |src| && '\0' !in src[..i]
      invariant forall k | at <= k < at + i :: buf[k] == goal[k - at]
      invariant forall k | 0 <= k < buf.Length && !(at <= k < at + i) :: buf[k] == before[k]
    {
      PaddedAt(src, n, i);
      assert src[..i + 1] == src[..i] + [src[i]];
      buf[at + i] := src[i];
      i := i + 1;
    }
    if i < n {
      PaddedAt(src, n, i);
    }
    ghost var text := i;
    while i < n
      invariant text <= i <= n
      invariant forall k | at <= k < at + i :: buf[k] == goal[k - at]
      invariant forall k | 0 <= k < buf.Length && !(at <= k < at + i) :: buf[k] == before[k]
    {
      buf[at + i] := '\0';
      i := i + 1;
    }
  }

  /** How many bytes one read of an entry delivers: the size is signed for a name of full length, and else unsigned. */
  function EntryLength(d: Dentry, n: Size): (length: nat)
    requires |d.filename| == FILENAME_LEN
    ensures length <= n
  {
    if d.filename[FILENAME_LEN - 1] != '\0' then (if Signed(n) >= FILENAME_LEN then FILENAME_LEN else n)
    else Min(n, |NameOf(d)|)
  }

  /** A negative size for a name of full length asks for more bytes than there are anywhere. */
  predicate Overruns(fs: Image, pos: nat, n: Size)
    requires fs.Valid()
  {
    pos < fs.dirCount && Signed(n) < 0 && fs.dentries[pos].filename[FILENAME_LEN - 1] != '\0'
  }

  /** Two gigabytes or more. */
  lemma OverrunsIff(fs: Image, pos: nat, n: Size)
    requires fs.Valid()
    ensures Overruns(fs, pos, n) <==> pos < fs.dirCount && EntryLength(fs.dentries[pos], n) >= 0x8000_0000
  {
  }

  /** The bytes that one read of an entry delivers. */
  function EntryBytes(d: Dentry, n: Size): (bytes: seq<char>)
    requires |d.filename| == FILENAME_LEN
    ensures |bytes| == EntryLength(d, n)
  {
    Padded(d.filename, EntryLength(d, n))
  }

  /** Reads the entry at `pos`; answers the new position and the number of bytes. */
  method DirRead(fs: Image, pos: nat, buf: array<char>, at: nat, n: Size) returns (next: nat, count: nat)
    requires fs.Valid() && !Overruns(fs, pos, n)
    requires pos < fs.dirCount ==> at + EntryLength(fs.dentries[pos], n) <= buf.Length
    modifies buf
    ensures pos >= fs.dirCount ==> next == pos && count == 0 && buf[..] == old(buf[..])
    ensures pos < fs.dirCount ==>
              && next == pos + 1 && count == EntryLength(fs.dentries[pos], n)
              && buf[..] == Spliced(old(buf[..]), at, EntryBytes(fs.dentries[pos], n))
  {
    if pos >= fs.dirCount {
      return pos, 0;
    }
    var d := ReadDentryByIndex(fs, pos);
    var name := d.value.filename;
    if name[FILENAME_LEN - 1] != '\0' {
      count := if Signed(n) >= FILENAME_LEN then FILENAME_LEN else n;
    } else {
      var len := StringLength(name);
      count := if n >= len then len else n;
    }
    Strncpy(buf, at, name, count);
    next := pos + 1;
  }

  method StringLength(s: seq<char>) returns (len: nat)
    ensures len == |CString(s)|
  {
    len := 0;
    while len < |s| && s[len] != '\0'
      invariant len <= |s| && '\0' !in s[..len]
    {
      assert s[..len + 1] == s[..len] + [s[len]];
      len := len + 1;
    }
    CStringIs(s, len);
  }

  /** The names that a reader with room for 32 bytes finds in `n` reads in a row from entry `pos`. */
  function Listing(fs: Image, pos: nat, n: nat): seq<seq<char>>
    requires fs.Valid()
    decreases n
  {
    if n == 0 then []
    else if pos >= fs.dirCount then [[]] + Listing(fs, pos, n - 1)
    else [CString(EntryBytes(fs.dentries[pos], FILENAME_LEN))] + Listing(fs, pos + 1, n - 1)
  }

  lemma EntryIsName(d: Dentry, n: Size)
    requires |d.filename| == FILENAME_LEN && n >= FILENAME_LEN
    ensures CString(EntryBytes(d, n)) == NameOf(d)
  {
    var bytes, name := EntryBytes(d, n), NameOf(d);
    assert |name| <= |bytes| && bytes[..|name|] == name;
    CStringIs(bytes, |name|);
  }

  /** The name of entry `i`, and nothing behind the last entry. */
  function NameAt(fs: Image, i: nat): seq<char>
    requires fs.Valid()
  {
    if i < fs.dirCount then NameOf(fs.dentries[i]) else []
  }

  lemma ListingStep(fs: Image, pos: nat, n: nat, next: nat)
    requires fs.Valid() && n > 0 && next == if pos < fs.dirCount then pos + 1 else pos
    ensures Listing(fs, pos, n) == [NameAt(fs, pos)] + Listing(fs, next, n - 1)
  {
    if pos < fs.dirCount {
      EntryIsName(fs.dentries[pos], FILENAME_LEN);
    }
  }

  lemma BehindFirst(whole: seq<seq<char>>, first: seq<char>, rest: seq<seq<char>>, k: nat)
    requires whole == [first] + rest && k < |whole|
    ensures |rest| == |whole| - 1 && whole[k] == if k == 0 then first else rest[k - 1]
  {
  }

  /** Reading a directory on and on gives every name once, in order, and then nothing for ever. */
  lemma {:induction false} ListingIsDirectory(fs: Image, pos: nat, n: nat)
    requires fs.Valid()
    ensures |Listing(fs, pos, n)| == n && forall k | 0 <= k < n :: Listing(fs, pos, n)[k] == NameAt(fs, pos + k)
    decreases n
  {
    if n == 0 {
    } else {
      var next := if pos < fs.dirCount then pos + 1 else pos;
      ListingStep(fs, pos, n, next);
      ListingIsDirectory(fs, next, n - 1);
      forall k | 0 <= k < n
        ensures Listing(fs, pos, n)[k] == NameAt(fs, pos + k)
      {
        BehindFirst(Listing(fs, pos, n), NameAt(fs, pos), Listing(fs, next, n - 1), k);
      }
    }
  }

  /** Every name so read is found again, at the least index that carries it. */
  lemma ListedNamesResolve(fs: Image, k: nat)
    requires fs.Valid() && k < fs.dirCount
    ensures |Listing(fs, 0, fs.dirCount)| == fs.dirCount
    ensures var name := Listing(fs, 0, fs.dirCount)[k];
            && Lookup(fs, name).Some? && Lookup(fs, name).value <= k
            && NameOf(fs.dentries[Lookup(fs, name).value]) == NameOf(fs.dentries[k])
  {
    ListingIsDirectory(fs, 0, fs.dirCount);
  }
}
