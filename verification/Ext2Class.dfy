/** fs/ext2/block.c, inode.c, dir.c and file.c on buffers filled in place. */
module Ext2Class {
  import opened Memory
  import opened Tokens
  import opened Strtok
  import opened Ext2Disk
  import opened Ext2Format

  class Filesystem {
    const v: Volume
    const tokens: Tokenizer   // strtok's static state

    constructor (v: Volume, tokens: Tokenizer)
      requires v.Valid()
      ensures this.v == v && this.tokens == tokens
    {
      this.v := v;
      this.tokens := tokens;
    }

    /** The device's read: `count` sectors from sector `lba` to `buf[off..]`. */
    method DeviceRead(buf: array<Byte>, off: nat, count: nat, lba: nat)
      requires off + count * SECTOR <= buf.Length
      modifies buf
      ensures forall i :: 0 <= i < count * SECTOR ==> buf[off + i] == v.dev(lba + i / SECTOR, i % SECTOR)
      ensures forall i :: 0 <= i < buf.Length && !(off <= i < off + count * SECTOR) ==> buf[i] == old(buf[i])
    {
      for i := 0 to count * SECTOR
        invariant forall k :: 0 <= k < i ==> buf[off + k] == v.dev(lba + k / SECTOR, k % SECTOR)
        invariant forall k :: 0 <= k < buf.Length && !(off <= k < off + i) ==> buf[k] == old(buf[k])
      {
        buf[off + i] := v.dev(lba + i / SECTOR, i % SECTOR);
      }
    }

    /** ext2_read_block. */
    method ReadBlock(buf: array<Byte>, off: nat, block: nat)
      requires v.Valid() && off + v.bs <= buf.Length
      modifies buf
      ensures buf[off..off + v.bs] == v.Block(block)
      ensures forall i :: 0 <= i < buf.Length && !(off <= i < off + v.bs) ==> buf[i] == old(buf[i])
    {
      hide Volume.Block, Volume.Valid;
      SectorsOf(v, block);
      var spb: int := v.SectorsPerBlock();
      if spb == 0 {
        spb := spb + 1;
      }
      DeviceRead(buf, off, spb, block * spb);
      assert forall i: nat :: i < v.bs ==> buf[off + i] == v.Block(block)[i];
    }

    /** The descriptor of group `group`, by stepping a pointer through the first descriptor block. */
    method InodeTable(blockBuf: array<Byte>, group: nat) returns (table: nat)
      requires v.Valid() && blockBuf.Length == v.bs && group * DESC_SIZE + DESC_SIZE <= v.bs
      modifies blockBuf
      ensures table == Le32(v.Block(v.firstBgd), group * DESC_SIZE + 8)
    {
      ReadBlock(blockBuf, 0, v.firstBgd);
      var bgd := 0;
      for i := 0 to group
        invariant bgd == i * DESC_SIZE
      {
        bgd := bgd + DESC_SIZE;
      }
      assert blockBuf[..] == blockBuf[0..0 + v.bs];
      table := Le32(blockBuf[..], bgd + 8);
    }

    /** Copy out entry `index` of the block in `blockBuf`, by stepping a pointer. */
    method CopyEntry(out: array<Byte>, blockBuf: array<Byte>, index: nat)
      requires out.Length == INODE_SIZE && out != blockBuf && index * INODE_SIZE + INODE_SIZE <= blockBuf.Length
      modifies out
      ensures out[..] == blockBuf[index * INODE_SIZE..index * INODE_SIZE + INODE_SIZE]
    {
      var slot := 0;
      for i := 0 to index
        invariant slot == i * INODE_SIZE
      {
        slot := slot + INODE_SIZE;
      }
      for i := 0 to INODE_SIZE
        invariant forall k :: 0 <= k < i ==> out[k] == blockBuf[slot + k]
      {
        out[i] := blockBuf[slot + i];
      }
    }

    /** ext2_read_inode into `out`; false if the group's descriptor lies outside the block that is read. What is
        read is the entry that group and index number. */
    method ReadInode(out: array<Byte>, ino: int) returns (ok: bool)
      requires v.Valid() && out.Length == INODE_SIZE
      modifies out
      ensures ok <==> Described(v, ino)
      ensures ok ==> out[..] == InodeBytes(v, ino)
      ensures ok ==> forall g, i: nat :: Numbered(v, ino, g, i) ==> InodeIs(v, g, i, out[..])
    {
      hide InodeBytes, TableIndex, TableBlock, TableSlot, Volume.Block, Numbered, InodeIs, Le32;
      ok := Described(v, ino);
      if !ok {
        return;
      }
      InodeAt(v, ino);
      var blockBuf := new Byte[v.bs];
      var table := InodeTable(blockBuf, Group(v, ino));
      var index := TableIndex(v, ino);
      ReadBlock(blockBuf, 0, table + TableBlock(v, index));
      assert blockBuf[..] == blockBuf[0..0 + v.bs];
      InodePosition(v, ino);
      SlotIs(v, index);
      CopyEntry(out, blockBuf, Mod(index, v.bs / INODE_SIZE));
    }

    /** strncmp of `n` bytes of a record's name against the string at `f[fp]`. */
    method Strncmp(b: array<Byte>, o: nat, n: nat, f: array<int>, fp: nat) returns (c: Comparison)
      requires Terminated(f[..], fp)
      ensures c == CompareName(b[..], o, n, StrAt(f[..], fp), 0)
    {
      hide StrAt;
      ghost var s := StrAt(f[..], fp);
      var i := 0;
      var past := false;   // the string's terminator has been compared
      while i < n
        invariant i <= n && (past <==> i > |s|) && i <= |s| + 1
        invariant CompareName(b[..], o, n, s, 0) == CompareName(b[..], o, n, s, i)
      {
        if o + i >= b.Length || past {
          return Outside;
        }
        StrChar(f[..], fp, i);
        if b[o + i] as int != f[fp + i] {
          return Differs;
        }
        past := f[fp + i] == 0;
        i := i + 1;
      }
      c := Same;
    }

    /** The inner loop of ext2_read_directory. */
    method SearchBlock(b: array<Byte>, f: array<int>, fp: nat) returns (found: Found)
      requires Terminated(f[..], fp)
      ensures found == WalkBlock(b[..], 0, StrAt(f[..], fp))
    {
      hide StrAt, CompareName;
      ghost var s := StrAt(f[..], fp);
      var r := 0;
      while r < b.Length
        invariant WalkBlock(b[..], 0, s) == WalkBlock(b[..], r, s)
        decreases b.Length - r
      {
        if r + 7 > b.Length {
          return Found.Wild;
        }
        var c := Strncmp(b, r + 8, NameLength(b[..], r), f, fp);
        if c == Same {
          return Inode(ToInt(Le32(b[..], r)));
        }
        if c == Outside {
          return Found.Wild;
        }
        var size := RecordSize(b[..], r);
        if size == 0 {
          return Missing;
        }
        r := r + size;
      }
      found := Missing;
    }

    /** ext2_read_directory. */
    method ReadDirectory(dir: int, f: array<int>, fp: nat) returns (found: Found)
      requires v.Valid() && Terminated(f[..], fp)
      ensures found == Lookup(v, dir, StrAt(f[..], fp))
    {
      hide StrAt, WalkBlock, InodeBytes, Volume.Block, RecordSize, NameLength, Le32;
      ghost var s := StrAt(f[..], fp);
      var inode := new Byte[INODE_SIZE];
      var ok := ReadInode(inode, dir);
      if !ok {
        return Found.Wild;
      }
      var b := new Byte[v.bs];
      for i := 0 to DIRECT
        invariant inode[..] == InodeBytes(v, dir)
        invariant WalkBlocks(v, InodeBytes(v, dir), 0, s) == WalkBlocks(v, InodeBytes(v, dir), i, s)
      {
        ReadBlock(b, 0, Pointer(inode[..], i));
        assert b[..] == b[0..0 + v.bs];
        if Ends(b[..]) {
          break;
        }
        found := SearchBlock(b, f, fp);
        if found != Missing {
          return;
        }
      }
      found := Missing;
    }

    /** The tokenizer's state, as a value. */
    ghost function Scanning(): Pending
      requires tokens.Valid()
      reads this, tokens, tokens.sp
    {
      if tokens.sp == null then NoScan else Scan(tokens.Rest())
    }

    /** ext2_find_file_inode: Missing stands for -ENOENT. */
    method FindFileInode(path: Str) returns (found: Found)
      requires v.Valid() && tokens.Valid() && Clean(path)
      modifies tokens, tokens.sp
      ensures tokens.Valid() && (tokens.sp == old(tokens.sp) || tokens.sp == null || fresh(tokens.sp))
      ensures Resolution(found, Scanning()) == FindInode(v, old(Scanning()), path)
    {
      hide StrAt, Lookup, Next;
      var fn := new int[|path| + 1];
      forall k | 0 <= k < |path| {
        fn[k] := path[k];
      }
      fn[|path|] := 0;
      StrIs(fn[..], 0, path);
      ghost var pending := Scanning();
      ghost var s := if pending.Scan? then pending.rest else path;
      var pch: array?<int>, p: nat := tokens.Strtok(fn, SLASH);
      if pch == null {
        return Inode(ROOT);
      }
      var ino := ROOT;
      while pch != null
        invariant tokens.Valid() && (tokens.sp == old(tokens.sp) || tokens.sp == null || fresh(tokens.sp))
        invariant Resolve(v, s, ino) == FindInode(v, pending, path)
        invariant pch == null ==> Next(s, SLASH) == NoToken && tokens.sp == null
        invariant pch != null ==>
                    && pch == tokens.sp && p <= pch.Length && Terminated(pch[..], p)
                    && Next(s, SLASH) == Token(StrAt(pch[..], p), tokens.Rest())
        decreases |s|
      {
        found := ReadDirectory(ino, pch, p);
        if found == Found.Wild {
          return;
        }
        if found == Missing || found.ino < 0 {
          return Missing;
        }
        ino := found.ino;
        s := tokens.Rest();
        pch, p := tokens.Strtok(null, SLASH);
      }
      found := Inode(ino);
    }

    /** ext2_file_read_block: block `b` of the file into `buf[off..]`. `stray` is what the uninitialised
        index variable holds; `wild` if a read had to leave a buffer. */
    method FileReadBlock(path: Str, buf: array<Byte>, off: nat, b: nat, stray: nat) returns (rc: int, wild: bool)
      requires v.Valid() && tokens.Valid() && Clean(path) && off + v.bs <= buf.Length
      modifies tokens, tokens.sp, buf
      ensures tokens.Valid() && (tokens.sp == old(tokens.sp) || tokens.sp == null || fresh(tokens.sp))
      ensures Scanning() == FindInode(v, old(Scanning()), path).pending
      ensures forall i :: 0 <= i < buf.Length && !(off <= i < off + v.bs) ==> buf[i] == old(buf[i])
      ensures match FindInode(v, old(Scanning()), path).found
              case Missing => !wild && rc == ENOENT
              case Wild => wild
              case Inode(ino) =>
                if !Described(v, ino) then wild
                else
                  match ReadFrom(v, ino, b, stray)
                  case From(block) => !wild && rc == 0 && buf[off..off + v.bs] == v.Block(block)
                  case Unsupported => !wild && rc == ENOSYS && buf[..] == old(buf[..])
                  case Stray => wild
      ensures rc == ENOSYS ==> !wild && DIRECT <= b && v.bs / 4 <= b
      ensures !wild && rc != ENOENT && DIRECT <= b && v.bs / 4 <= b ==> rc == ENOSYS
    {
      hide InodeBytes, Volume.Block, FindInode, StrAt, InodeIs, Numbered;
      var found := FindFileInode(path);
      if found == Found.Wild {
        return 0, true;
      }
      if found == Missing {
        return ENOENT, false;
      }
      var ino := found.ino;
      var ibuf := new Byte[INODE_SIZE];
      var ok := ReadInode(ibuf, ino);
      if !ok {
        return 0, true;
      }
      wild := false;
      rc := 0;
      if b < DIRECT {
        ReadBlock(buf, off, Pointer(ibuf[..], b));
      } else if b < v.bs / 4 {
        var bb := new Byte[v.bs];
        ReadBlock(bb, 0, Pointer(ibuf[..], DIRECT));
        assert bb[..] == bb[0..0 + v.bs];
        if DIRECT <= stray < DIRECT + v.bs / 4 {
          ReadBlock(buf, off, Le32(bb[..], 4 * (stray - DIRECT)));
        } else {
          wild := true;
        }
      } else {
        rc := ENOSYS;
      }
    }

    /** The fetching part of ext2_read_file: `n` blocks from block `first` on, error returns ignored. It
        leaves a buffer exactly when some indirect block is looked for outside the indirect block. */
    method Fetch(path: Str, block: array<Byte>, first: nat, n: nat, strays: nat -> nat) returns (wild: bool)
      requires v.Valid() && tokens.Valid() && Clean(path) && block.Length == n * v.bs
      modifies tokens, tokens.sp, block
      ensures tokens.Valid() && (tokens.sp == old(tokens.sp) || tokens.sp == null || fresh(tokens.sp))
      ensures old(Scanning()) == NoScan && Resolves(v, path) ==>
                && Scanning() == NoScan && (wild <==> Misses(v, strays, first, n))
                && (!wild ==> Fetched(v, Target(v, path), strays, block[..], first, n))
    {
      hide FindInode, StrAt, Volume.Block, ReadFrom, InodeBytes, Resolves, Fetched, Misses, Tokenizer.Rest, Tokenizer.Valid,
           Volume.Valid, Clean, Supported, Described;
      wild := false;
      ghost var resolves := old(Scanning()) == NoScan && Resolves(v, path);
      if resolves {
        NoneFetched(v, Target(v, path), strays, block[..], first);
      }
      for i := 0 to n
        invariant tokens.Valid() && (tokens.sp == old(tokens.sp) || tokens.sp == null || fresh(tokens.sp))
        invariant resolves ==>
                    && Scanning() == NoScan && !Misses(v, strays, first, i)
                    && Fetched(v, Target(v, path), strays, block[..], first, i)
      {
        var off := i * v.bs;
        BlockRoom(i, n, v.bs, off);
        ghost var s0 := block[..];
        if resolves {
          MissesNext(v, Target(v, path), strays, first, n, i);
        }
        var rc, w := FileReadBlock(path, block, off, first + i, strays(first + i));
        if w {
          return true;
        }
        if resolves {
          FetchedNext(v, Target(v, path), strays, s0, block[..], first, i, off);
        }
      }
    }
  }

  /** The sectors that make up a block. */
  lemma SectorsOf(v: Volume, block: nat)
    requires v.Valid()
    ensures var spb := v.SectorsPerBlock();
            && spb > 0 && spb * SECTOR == v.bs == |v.Block(block)|
            && forall i: nat :: i < v.bs ==> v.Block(block)[i] == v.dev(block * spb + i / SECTOR, i % SECTOR)
  {
    forall i: nat | i < v.bs
      ensures v.Block(block)[i] == v.dev(block * v.SectorsPerBlock() + i / SECTOR, i % SECTOR)
    {
      SectorPosition(v.bs, block, i);
    }
  }

  lemma BlockRoom(i: nat, n: nat, bs: nat, off: nat)
    requires i < n && off == i * bs
    ensures off + bs <= n * bs
  {
    MulMonotone(i + 1, n, bs);
    Distribute(i, 1, bs);
  }

  lemma NoneFetched(v: Volume, ino: nat, strays: nat -> nat, s: seq<Byte>, first: nat)
    requires v.Valid() && Described(v, ino)
    ensures !Misses(v, strays, first, 0) && Fetched(v, ino, strays, s, first, 0)
  {
  }

  lemma MissesNext(v: Volume, ino: nat, strays: nat -> nat, first: nat, n: nat, i: nat)
    requires v.Valid() && Described(v, ino) && i < n && !Misses(v, strays, first, i)
    ensures ReadFrom(v, ino, first + i, strays(first + i)) == Stray <==> Misses(v, strays, first, i + 1)
    ensures Misses(v, strays, first, i + 1) ==> Misses(v, strays, first, n)
  {
    hide Volume.Block, InodeBytes;
    if ReadFrom(v, ino, first + i, strays(first + i)) == Stray {
      assert Missed(v, strays(first + i));
    }
  }

  lemma BlockKept(v: Volume, s: seq<Byte>, s': seq<Byte>, i: nat, k: nat)
    requires v.Valid() && k < i && |s'| == |s| && i * v.bs + v.bs <= |s|
    requires forall x :: 0 <= x < |s| && !(i * v.bs <= x < i * v.bs + v.bs) ==> s'[x] == s[x]
    ensures BlockIn(v, s', k) == BlockIn(v, s, k)
  {
    Distribute(k, 1, v.bs);
    MulMonotone(k + 1, i, v.bs);
  }

  /** Fetching one more block keeps the ones before. */
  lemma FetchedNext(v: Volume, ino: nat, strays: nat -> nat, s: seq<Byte>, s': seq<Byte>, first: nat, i: nat, off: nat)
    requires v.Valid() && Described(v, ino) && |s'| == |s| && off == i * v.bs && off + v.bs <= |s|
    requires Fetched(v, ino, strays, s, first, i)
    requires forall x :: 0 <= x < |s| && !(off <= x < off + v.bs) ==> s'[x] == s[x]
    requires match ReadFrom(v, ino, first + i, strays(first + i))
             case From(block) => s'[off..off + v.bs] == v.Block(block)
             case _ => true
    ensures Fetched(v, ino, strays, s', first, i + 1)
  {
    hide Volume.Block, ReadFrom, BlockIn;
    Distribute(i, 1, v.bs);
    forall k: nat | k < i + 1 ensures FetchedOne(v, ino, strays, s', first, k) {
      if k < i {
        assert FetchedOne(v, ino, strays, s, first, k);
        BlockKept(v, s, s', i, k);
      }
    }
  }

  lemma SlotIs(v: Volume, index: nat)
    requires v.Valid()
    ensures v.bs / INODE_SIZE > 0 && TableSlot(v, index) == Mod(index, v.bs / INODE_SIZE) * INODE_SIZE
  {
  }

  /** An open file: the path given to open, and the position. */
  class File {
    const fs: Filesystem
    const path: Str       // respath
    var pos: nat

    /** ext2_open. */
    constructor (fs: Filesystem, path: Str)
      ensures this.fs == fs && this.path == path && pos == 0
    {
      this.fs := fs;
      this.path := path;
      pos := 0;
    }

    /** ext2_read_file into `buf`: the number of bytes, or a negated error. `strays` holds what the
        uninitialised index variable holds at each block; `wild` if a read had to leave a buffer. */
    method Read(buf: array<Byte>, count: nat, strays: nat -> nat) returns (rc: int, wild: bool)
      requires fs.v.Valid() && fs.tokens.Valid() && Clean(path) && count <= buf.Length
      modifies this`pos, fs.tokens, fs.tokens.sp, buf
      ensures fs.tokens.Valid()
      ensures forall i :: count <= i < buf.Length ==> buf[i] == old(buf[i])
      ensures count == 0 ==> rc == 0 && !wild && pos == old(pos)
      ensures count > 0 && FindInode(fs.v, old(fs.Scanning()), path).found == Missing ==>
                rc == ENOENT && !wild && pos == old(pos) && buf[..] == old(buf[..])
      ensures count > 0 && Readable(fs.v, old(fs.Scanning()), path) ==>
                && fs.Scanning() == NoScan
                && (wild <==> ReadMisses(fs.v, strays, old(pos), count) || !Fits(fs.v, old(pos), count))
                && (!wild ==> rc == count && pos == old(pos) + count)
                && (Reaches(fs.v, old(pos) + count) ==>
                      match ReadOutcome(fs.v, Target(fs.v, path), strays, old(pos), count)
                      case Overrun => wild
                      case Delivered(data) => !wild && buf[..count] == data)
    {
      hide *;
      if count == 0 {
        return 0, false;
      }
      FoundIdle(fs.v, fs.Scanning(), path);
      ghost var readable := Readable(fs.v, fs.Scanning(), path);
      if readable {
        ReadableFacts(fs.v, fs.Scanning(), path);
      }
      var found := fs.FindFileInode(path);
      if found == Found.Wild {
        return 0, true;
      }
      if found == Missing {
        return ENOENT, false;
      }
      wild := ReadBlocks(buf, count, strays);
      if wild {
        return 0, true;
      }
      pos := pos + count;
      rc := count;
    }

    /** The blocks and the copy of ext2_read_file. */
    method ReadBlocks(buf: array<Byte>, count: nat, strays: nat -> nat) returns (wild: bool)
      requires fs.v.Valid() && fs.tokens.Valid() && Clean(path) && count <= buf.Length
      modifies fs.tokens, fs.tokens.sp, buf
      ensures fs.tokens.Valid()
      ensures forall i :: count <= i < buf.Length ==> buf[i] == old(buf[i])
      ensures old(fs.Scanning()) == NoScan && Resolves(fs.v, path) ==>
                && fs.Scanning() == NoScan
                && (wild <==> ReadMisses(fs.v, strays, pos, count) || !Fits(fs.v, pos, count))
                && (Reaches(fs.v, pos + count) ==>
                      match ReadOutcome(fs.v, Target(fs.v, path), strays, pos, count)
                      case Overrun => wild
                      case Delivered(data) => !wild && buf[..count] == data)
    {
      hide *;
      fs.v.NotEmpty();
      ghost var resolves := fs.Scanning() == NoScan && Resolves(fs.v, path);
      if resolves {
        OutcomeIs(fs.v, Target(fs.v, path), strays, pos, count);
      }
      var bs := fs.v.bs;
      var blocks := Div(count, bs);
      var cblock := Div(pos, bs);
      FitsExactly(fs.v, pos, count);
      MulMonotone(0, blocks + 1, bs);
      var block := new Byte[(blocks + 1) * bs];
      wild := fs.Fetch(path, block, cblock, blocks + 1, strays);
      if wild {
        return;
      }
      var start := Start(fs.v, pos);
      if start + count > block.Length {
        return true;
      }
      Copy(buf, block, start, count);
      if resolves && Reaches(fs.v, pos + count) {
        CopiedOut(fs.v, Target(fs.v, path), strays, block[..], pos, count, buf[..count]);
      }
    }
  }

  /** Consecutive reads that fit concatenate: together they deliver the bytes of one longer read. */
  method ReadTwice(f: File, a: array<Byte>, n: nat, b: array<Byte>, k: nat, strays: nat -> nat, strays': nat -> nat)
    requires f.fs.v.Valid() && f.fs.tokens.Valid() && Clean(f.path) && Readable(f.fs.v, f.fs.Scanning(), f.path)
    requires a != b && 0 < n <= a.Length && 0 < k <= b.Length && Reaches(f.fs.v, f.pos + n + k)
    requires Relied(f.fs.v, strays, f.pos, n) && Relied(f.fs.v, strays', f.pos + n, k)
    modifies f`pos, f.fs.tokens, f.fs.tokens.sp, a, b
    ensures f.pos == old(f.pos) + n + k
    ensures a[..n] + b[..k] == FileBytes(f.fs.v, Target(f.fs.v, f.path), old(f.pos), n + k)
  {
    hide FindInode, StrAt, Reaches, FileBytes, Fits, Relied, Aimed, ReadOutcome, Misses, ReadMisses, Tokenizer.Rest,
         Tokenizer.Valid, Volume.Valid, Clean;
    ghost var v, pos := f.fs.v, f.pos;
    ghost var ino := Target(v, f.path);
    ReachesLess(v, pos + n + k, pos + n);
    ReliedFacts(v, ino, strays, pos, n);
    ReliedFacts(v, ino, strays', pos + n, k);
    var rc, wild := f.Read(a, n, strays);
    rc, wild := f.Read(b, k, strays');
    FileBytesAppend(v, ino, pos, n, k);
  }

  /** From mount on: a file is opened and read from its start. What arrives is the start of its blocks, in the
      order the inode and the indirect block name them. */
  method OpenAndRead(v: Volume, path: Str, buf: array<Byte>, count: nat, strays: nat -> nat) returns (f: File)
    requires v.Valid() && Clean(path) && Resolves(v, path) && 0 < count <= buf.Length && Reaches(v, count)
    requires Relied(v, strays, 0, count)
    modifies buf
    ensures f.pos == count && buf[..count] == FileBytes(v, Target(v, path), 0, count)
    ensures forall blocks :: HasBlocks(v, Target(v, path), blocks) && count <= |Laid(v, blocks)| ==>
              buf[..count] == Laid(v, blocks)[..count]
  {
    hide FindInode, StrAt, Reaches, FileBytes, Fits, Relied, Aimed, ReadOutcome, Misses, ReadMisses, Volume.Valid, Clean,
         HasBlocks, Laid;
    forall blocks | HasBlocks(v, Target(v, path), blocks) && count <= |Laid(v, blocks)|
      ensures FileBytes(v, Target(v, path), 0, count) == Laid(v, blocks)[..count]
    {
      FlatFile(v, Target(v, path), blocks, 0, count);
    }
    var tokens := new Tokenizer();
    var fs := new Filesystem(v, tokens);
    f := new File(fs, path);
    ReliedFacts(v, Target(v, path), strays, 0, count);
    var rc, wild := f.Read(buf, count, strays);
  }

  /** A read that fits, with the index variable right at every indirect block. */
  ghost predicate Relied(v: Volume, strays: nat -> nat, pos: nat, count: nat)
    requires v.Valid()
  {
    Fits(v, pos, count) && Aimed(v, strays, Div(pos, v.bs), Div(count, v.bs) + 1)
  }

  lemma ReliedFacts(v: Volume, ino: nat, strays: nat -> nat, pos: nat, count: nat)
    requires v.Valid() && Described(v, ino) && Relied(v, strays, pos, count) && Reaches(v, pos + count)
    ensures ReadOutcome(v, ino, strays, pos, count) == Delivered(FileBytes(v, ino, pos, count))
  {
    hide Fits, Reaches, Aimed, ReadOutcome, FileBytes;
    AimedRead(v, ino, strays, pos, count);
  }

  lemma ReachesLess(v: Volume, to: nat, to': nat)
    requires v.Valid() && Reaches(v, to) && to' <= to
    ensures Reaches(v, to')
  {
    if to' > 0 {
      ReachesBelow(v, to, to' - 1);
    }
  }

  /** memcpy. */
  method Copy(dst: array<Byte>, src: array<Byte>, start: nat, count: nat)
    requires dst != src && count <= dst.Length && start + count <= src.Length
    modifies dst
    ensures dst[..count] == src[start..start + count]
    ensures forall i :: count <= i < dst.Length ==> dst[i] == old(dst[i])
  {
    for i := 0 to count
      invariant forall k :: 0 <= k < i ==> dst[k] == src[start + k]
      invariant forall k :: count <= k < dst.Length ==> dst[k] == old(dst[k])
    {
      dst[i] := src[start + i];
    }
  }

  /** The first lookup of ext2_read_file finds something, and the path resolves from then on. */
  predicate Readable(v: Volume, pending: Pending, path: Str)
    requires v.Valid()
  {
    FindInode(v, pending, path).found.Inode? && Resolves(v, path)
  }

  ghost predicate ReadMisses(v: Volume, strays: nat -> nat, pos: nat, count: nat)
    requires v.Valid()
  {
    Misses(v, strays, Div(pos, v.bs), Div(count, v.bs) + 1)
  }

  lemma ReadableFacts(v: Volume, pending: Pending, path: Str)
    requires v.Valid() && Readable(v, pending, path)
    ensures FindInode(v, pending, path).found.Inode? && Resolves(v, path)
  {
  }

  lemma OutcomeIs(v: Volume, ino: nat, strays: nat -> nat, pos: nat, count: nat)
    requires v.Valid() && Described(v, ino)
    ensures ReadMisses(v, strays, pos, count) <==> Misses(v, strays, Div(pos, v.bs), Div(count, v.bs) + 1)
    ensures Reaches(v, pos + count) ==>
              (ReadOutcome(v, ino, strays, pos, count) == Overrun <==>
               ReadMisses(v, strays, pos, count) || !Fits(v, pos, count))
  {
    hide Fits, Reaches, Misses;
  }

  lemma CopiedOut(v: Volume, ino: nat, strays: nat -> nat, block: seq<Byte>, pos: nat, count: nat, out: seq<Byte>)
    requires v.Valid() && Described(v, ino) && Reaches(v, pos + count) && Fits(v, pos, count)
    requires var n := Div(count, v.bs) + 1;
             && |block| == n * v.bs && !Misses(v, strays, Div(pos, v.bs), n)
             && Fetched(v, ino, strays, block, Div(pos, v.bs), n)
    requires Start(v, pos) + count <= |block| && out == block[Start(v, pos)..Start(v, pos) + count]
    ensures ReadOutcome(v, ino, strays, pos, count) == Delivered(out)
  {
    hide Fetched, Reaches, Fits, Misses, ReadFrom, SourceByte;
    var first, n, start := Div(pos, v.bs), Div(count, v.bs) + 1, Start(v, pos);
    var d := ReadOutcome(v, ino, strays, pos, count);
    forall k | 0 <= k < count ensures d.data[k] == out[k] {
      SourceIs(v, ino, strays, pos, count, k);
      FetchedByte(v, ino, strays, block, first, n, start + k);
    }
  }
}
