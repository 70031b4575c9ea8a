/** The ext2 structures written down as bytes, field after field as include/levos/ext2.h declares them, and what
    the read path makes of a disk that holds them. */
module Ext2Format {
  import opened Memory
  import opened Tokens
  import opened Ext2Disk

  // ---------------------------------------------------------------- little-endian numbers

  function LeBytes(x: nat): (r: seq<Byte>)
    requires x < WORD_LIMIT
    ensures |r| == 4
  {
    [x % 0x100, x / 0x100 % 0x100, x / 0x1_0000 % 0x100, x / 0x100_0000]
  }

  predicate AreWords(ws: seq<nat>) {
    forall i :: 0 <= i < |ws| ==> ws[i] < WORD_LIMIT
  }

  function Words(ws: seq<nat>): (r: seq<Byte>)
    requires AreWords(ws)
    ensures |r| == 4 * |ws|
  {
    if ws == [] then [] else LeBytes(ws[0]) + Words(ws[1..])
  }

  lemma LeWord(s: seq<Byte>, o: nat, x: nat)
    requires o + 4 <= |s| && x < WORD_LIMIT && s[o..o + 4] == LeBytes(x)
    ensures Le32(s, o) == x
  {
    var b := LeBytes(x);
    assert s[o] == b[0] && s[o + 1] == b[1] && s[o + 2] == b[2] && s[o + 3] == b[3];
    var y := x / 0x100;
    var z := y / 0x100;
    assert x / 0x1_0000 == z && x / 0x100_0000 == z / 0x100;
  }

  /** Where numbers lie one after the other, each reads back from its place. */
  lemma {:induction false} WordAt(s: seq<Byte>, o: nat, ws: seq<nat>, i: nat)
    requires AreWords(ws) && i < |ws| && o + 4 * |ws| <= |s| && s[o..o + 4 * |ws|] == Words(ws)
    ensures Le32(s, o + 4 * i) == ws[i]
    decreases i
  {
    var t := s[o..o + 4 * |ws|];
    if i == 0 {
      assert s[o..o + 4] == t[..4] == LeBytes(ws[0]);
      LeWord(s, o, ws[0]);
    } else {
      assert s[o + 4..o + 4 + 4 * |ws[1..]|] == t[4..] == Words(ws[1..]);
      WordAt(s, o + 4, ws[1..], i - 1);
    }
  }

  // ---------------------------------------------------------------- inodes

  /** Entry `i` of the table of group `g` is inode number `ino`. */
  predicate Numbered(v: Volume, ino: int, g: nat, i: nat) {
    ino == g * v.inodesPerGroup + i + 1 && i < v.inodesPerGroup
  }

  /** Group and index number the inodes: every inode has exactly one of each. */
  lemma InodeNumbering(v: Volume, ino: nat, g: nat, i: nat)
    requires v.Valid() && ino > 0
    ensures Numbered(v, ino, g, i) <==> g == Group(v, ino) && i == TableIndex(v, ino)
    ensures Group(v, ino) * v.inodesPerGroup + TableIndex(v, ino) == ino - 1 && TableIndex(v, ino) < v.inodesPerGroup
  {
    if Numbered(v, ino, g, i) {
      QuotientIs(ino - 1, v.inodesPerGroup, g, i);
    }
    assert Div(ino - 1, v.inodesPerGroup) == Group(v, ino);
  }

  /** Different inodes are in different places. */
  lemma DifferentInodes(v: Volume, a: nat, b: nat)
    requires v.Valid() && a > 0 && b > 0 && Group(v, a) == Group(v, b) && TableIndex(v, a) == TableIndex(v, b)
    ensures a == b
  {
    InodeNumbering(v, a, Group(v, a), TableIndex(v, a));
    InodeNumbering(v, b, Group(v, b), TableIndex(v, b));
  }

  /** These 128 bytes are entry `i` of the table of group `g`. */
  ghost predicate InodeIs(v: Volume, g: nat, i: nat, bytes: seq<Byte>) {
    && g * DESC_SIZE + DESC_SIZE <= v.bs
    && bytes == v.Bytes(Le32(v.Block(v.firstBgd), g * DESC_SIZE + 8) * v.bs + i * 128, 128)
  }

  lemma InodeAt(v: Volume, ino: int)
    requires v.Valid() && Described(v, ino)
    ensures forall g, i: nat :: Numbered(v, ino, g, i) ==> InodeIs(v, g, i, InodeBytes(v, ino))
  {
    hide Numbered, Volume.Bytes, Volume.Block;
    forall g: nat, i: nat | Numbered(v, ino, g, i) ensures InodeIs(v, g, i, InodeBytes(v, ino)) {
      InodeNumbering(v, ino, g, i);
    }
  }

  /** A group descriptor: its words are the blocks of the block bitmap, of the inode bitmap and of the inode
      table, and five more. */
  predicate DescriptorAt(v: Volume, g: nat, ws: seq<nat>) {
    && |ws| == 8 && AreWords(ws) && g * DESC_SIZE + DESC_SIZE <= v.bs
    && v.Block(v.firstBgd)[g * DESC_SIZE..g * DESC_SIZE + DESC_SIZE] == Words(ws)
  }

  /** The inode read for entry `i` of group `g`: 128 bytes of the table the group's descriptor names. */
  lemma InodeLies(v: Volume, ino: nat, g: nat, i: nat, ws: seq<nat>)
    requires v.Valid() && Numbered(v, ino, g, i) && DescriptorAt(v, g, ws)
    ensures Described(v, ino) && InodeBytes(v, ino) == v.Bytes(ws[2] * v.bs + i * 128, 128)
  {
    hide Group, TableIndex, InodeBytes, Volume.Block, Volume.Bytes, Words, DescriptorAt, Numbered;
    DescriptorTable(v, g, ws);
    NumberedDescribed(v, ino, g, i);
    InodeAt(v, ino);
    assert InodeIs(v, g, i, InodeBytes(v, ino));
  }

  lemma DescriptorTable(v: Volume, g: nat, ws: seq<nat>)
    requires DescriptorAt(v, g, ws)
    ensures |ws| == 8 && g * DESC_SIZE + DESC_SIZE <= v.bs && Le32(v.Block(v.firstBgd), g * DESC_SIZE + 8) == ws[2]
  {
    hide Volume.Block, Words;
    BlockByte(v, v.firstBgd, 0);
    WordAt(v.Block(v.firstBgd), g * DESC_SIZE, ws, 2);
  }

  lemma NumberedDescribed(v: Volume, ino: int, g: nat, i: nat)
    requires v.Valid() && Numbered(v, ino, g, i) && g * DESC_SIZE + DESC_SIZE <= v.bs
    ensures Described(v, ino)
  {
    hide Group;
    InodeNumbering(v, ino, g, i);
  }

  // ---------------------------------------------------------------- the blocks of a file

  /** An inode: 40 bytes of other fields, the twelve direct block numbers, the indirect one, and the rest. */
  predicate HasPointers(inode: seq<Byte>, direct: seq<nat>, indirect: nat) {
    && |inode| == INODE_SIZE && |direct| == 12 && AreWords(direct + [indirect])
    && inode[40..92] == Words(direct + [indirect])
  }

  /** The block that holds more block numbers. */
  predicate HoldsNumbers(b: seq<Byte>, more: seq<nat>) {
    AreWords(more) && 4 * |more| <= |b| && b[..4 * |more|] == Words(more)
  }

  /** The file of an inode consists of blocks `blocks`: the direct ones, and as many as are named behind them. */
  ghost predicate HasBlocks(v: Volume, ino: nat, blocks: seq<nat>)
    requires v.Valid() && Described(v, ino)
  {
    && 12 <= |blocks| && (|blocks| == 12 || |blocks| <= v.bs / 4)
    && exists indirect: nat :: BlocksThrough(v, ino, blocks, indirect)
  }

  predicate BlocksThrough(v: Volume, ino: nat, blocks: seq<nat>, indirect: nat)
    requires v.Valid() && Described(v, ino) && 12 <= |blocks|
  {
    HasPointers(InodeBytes(v, ino), blocks[..12], indirect) && HoldsNumbers(v.Block(indirect), blocks[12..])
  }

  /** These blocks, laid end to end. */
  function Laid(v: Volume, blocks: seq<nat>): seq<Byte> {
    if blocks == [] then [] else v.Block(blocks[0]) + Laid(v, blocks[1..])
  }

  lemma {:induction false} LaidLength(v: Volume, blocks: seq<nat>)
    ensures |Laid(v, blocks)| == |blocks| * v.bs
  {
    if blocks != [] {
      Distribute(1, |blocks[1..]|, v.bs);
      LaidLength(v, blocks[1..]);
    }
  }

  /** The first block comes first, the others behind it. */
  lemma LaidParts(v: Volume, blocks: seq<nat>, x: nat)
    requires blocks != []
    ensures var s, t := Laid(v, blocks), Laid(v, blocks[1..]);
            && |s| == v.bs + |t|
            && (x < v.bs ==> s[x] == v.Flat(FlatPosition(blocks[0], v.bs, x)))
            && (x < |t| ==> s[v.bs + x] == t[x])
  {
    hide Volume.Flat, Volume.Block, FlatPosition;
    BlockByte(v, blocks[0], x);
  }

  lemma BlockByte(v: Volume, b: nat, x: nat)
    ensures |v.Block(b)| == v.bs && (x < v.bs ==> v.Block(b)[x] == v.Flat(FlatPosition(b, v.bs, x)))
  {
    hide Volume.Flat;
  }

  lemma PositionStep(k: nat, bs: nat, o: nat)
    ensures FlatPosition(k, bs, o) == if k == 0 then o else bs + FlatPosition(k - 1, bs, o)
  {
    if k > 0 {
      Distribute(1, k - 1, bs);
    }
  }

  lemma {:induction false} LaidAt(v: Volume, blocks: seq<nat>, k: nat, o: nat)
    requires k < |blocks| && o < v.bs
    ensures var x := FlatPosition(k, v.bs, o);
            x < |Laid(v, blocks)| && Laid(v, blocks)[x] == v.Flat(FlatPosition(blocks[k], v.bs, o))
    decreases k
  {
    hide Laid, Volume.Flat, FlatPosition;
    PositionStep(k, v.bs, o);
    if k == 0 {
      LaidParts(v, blocks, o);
    } else {
      LaidAt(v, blocks[1..], k - 1, o);
      LaidParts(v, blocks, FlatPosition(k - 1, v.bs, o));
    }
  }

  lemma PointersRead(inode: seq<Byte>, direct: seq<nat>, indirect: nat, i: nat)
    requires HasPointers(inode, direct, indirect) && i < 13
    ensures Pointer(inode, i) == if i < 12 then direct[i] else indirect
  {
    WordAt(inode, 40, direct + [indirect], i);
  }

  /** Block `k` of the file is the `k`th of its blocks. */
  lemma BlockOrder(v: Volume, ino: nat, blocks: seq<nat>, k: nat)
    requires v.Valid() && Described(v, ino) && HasBlocks(v, ino, blocks) && k < |blocks|
    ensures Supported(v, k) && FileBlock(v, ino, k) == blocks[k]
  {
    hide Volume.Block, InodeBytes, Words;
    var indirect: nat :| BlocksThrough(v, ino, blocks, indirect);
    if k < 12 {
      PointersRead(InodeBytes(v, ino), blocks[..12], indirect, k);
    } else {
      PointersRead(InodeBytes(v, ino), blocks[..12], indirect, 12);
      HeldNumber(v.Block(indirect), blocks[12..], k - 12);
    }
  }

  lemma HeldNumber(b: seq<Byte>, more: seq<nat>, i: nat)
    requires HoldsNumbers(b, more) && i < |more|
    ensures Le32(b, 4 * i) == more[i]
  {
    WordAt(b, 0, more, i);
  }

  /** The flat file is its blocks laid end to end, in the order the inode and the indirect block name them. */
  lemma FlatFile(v: Volume, ino: nat, blocks: seq<nat>, pos: nat, count: nat)
    requires v.Valid() && Described(v, ino) && HasBlocks(v, ino, blocks) && pos + count <= |Laid(v, blocks)|
    ensures Reaches(v, pos + count) && FileBytes(v, ino, pos, count) == Laid(v, blocks)[pos..pos + count]
  {
    hide HasBlocks, FileBlock, Supported, Laid, Volume.Flat;
    if pos + count > 0 {
      InsideBlocks(v, ino, blocks, pos + count - 1);
    }
    forall i | 0 <= i < count ensures FileBytes(v, ino, pos, count)[i] == Laid(v, blocks)[pos + i] {
      InsideBlocks(v, ino, blocks, pos + i);
    }
  }

  lemma InsideBlocks(v: Volume, ino: nat, blocks: seq<nat>, x: nat)
    requires v.Valid() && Described(v, ino) && HasBlocks(v, ino, blocks) && x < |Laid(v, blocks)|
    ensures Supported(v, Div(x, v.bs)) && FileByte(v, ino, x) == Laid(v, blocks)[x]
  {
    hide HasBlocks, FileBlock, Supported, Laid, Volume.Flat;
    var k := Div(x, v.bs);
    LaidLength(v, blocks);
    if k >= |blocks| {
      MulMonotone(|blocks|, k, v.bs);
    }
    BlockOrder(v, ino, blocks, k);
    LaidAt(v, blocks, k, Mod(x, v.bs));
  }

  /** So a read that fits, with the index variable right at every indirect block, delivers that part of them. */
  lemma ReadOrder(v: Volume, ino: nat, blocks: seq<nat>, strays: nat -> nat, pos: nat, count: nat)
    requires v.Valid() && Described(v, ino) && HasBlocks(v, ino, blocks) && pos + count <= |Laid(v, blocks)|
    requires Fits(v, pos, count) && Aimed(v, strays, Div(pos, v.bs), Div(count, v.bs) + 1)
    ensures Reaches(v, pos + count)
    ensures ReadOutcome(v, ino, strays, pos, count) == Delivered(Laid(v, blocks)[pos..pos + count])
  {
    hide HasBlocks, Fits, Aimed, Laid, FileBytes, Reaches, ReadOutcome;
    FlatFile(v, ino, blocks, pos, count);
    AimedRead(v, ino, strays, pos, count);
  }

  // ---------------------------------------------------------------- directories

  /** `struct ext2_dir` with its name and the padding up to the next one. */
  datatype Record = Record(ino: int, kind: Byte, name: seq<Byte>, padding: seq<Byte>) {
    function Size(): nat { 8 + |name| + |padding| }

    predicate Valid() {
      && -0x8000_0000 <= ino < 0x8000_0000 && 0 < |name| < 0x100 && Size() < 0x1_0000
      && forall i :: 0 <= i < |name| ==> name[i] != 0
    }

    function Bytes(): (r: seq<Byte>)
      requires Valid()
      ensures |r| == Size()
    {
      LeBytes(if ino < 0 then ino + WORD_LIMIT else ino) + [Size() % 0x100, Size() / 0x100, |name|, kind] + name + padding
    }

    function Entry(): Entry { Ext2Disk.Entry(ino, seq(|name|, i requires 0 <= i < |name| => name[i] as int)) }
  }

  function Directory(rs: seq<Record>): seq<Byte>
    requires forall i :: 0 <= i < |rs| ==> rs[i].Valid()
  {
    if rs == [] then [] else rs[0].Bytes() + Directory(rs[1..])
  }

  function EntriesOf(rs: seq<Record>): seq<Entry> {
    if rs == [] then [] else [rs[0].Entry()] + EntriesOf(rs[1..])
  }

  /** A record reads back from where it lies. */
  lemma RecordReads(b: seq<Byte>, o: nat, r: Record)
    requires r.Valid() && o + r.Size() <= |b| && b[o..o + r.Size()] == r.Bytes()
    ensures RecordSize(b, o) == r.Size() && NameLength(b, o) == |r.name|
    ensures Ext2Disk.Entry(ToInt(Le32(b, o)), NameAt(b, o)) == r.Entry() && Clean(NameAt(b, o)) && 0 < |r.name|
  {
    var t := b[o..o + r.Size()];
    var u := if r.ino < 0 then r.ino + WORD_LIMIT else r.ino;
    assert b[o..o + 4] == t[..4] == LeBytes(u);
    LeWord(b, o, u);
    assert b[o + 4] == t[4] && b[o + 5] == t[5] && b[o + 6] == t[6];
    forall i | 0 <= i < |r.name| ensures b[o + 8 + i] == r.name[i] {
      assert t[8 + i] == b[o + 8 + i];
    }
    assert NameAt(b, o) == r.Entry().name;
  }

  /** Reading undoes writing: a block of records is tiled, and its entries are theirs, in order. */
  lemma {:induction false} DirectoryReads(b: seq<Byte>, o: nat, rs: seq<Record>)
    requires forall i :: 0 <= i < |rs| ==> rs[i].Valid()
    requires o <= |b| && b[o..] == Directory(rs)
    ensures Tiled(b, o) && Entries(b, o) == EntriesOf(rs)
    decreases |rs|
  {
    hide Record.Bytes, NameAt, RecordSize, Directory, Clean, Record.Valid;
    if rs == [] {
      NoRecords();
    } else {
      var r := rs[0];
      FirstRecord(b[o..], rs);
      assert b[o..][..r.Size()] == b[o..o + r.Size()] && b[o..][r.Size()..] == b[o + r.Size()..];
      RecordReads(b, o, r);
      DirectoryReads(b, o + r.Size(), rs[1..]);
    }
  }

  lemma NoRecords()
    ensures Directory([]) == []
  {
  }

  lemma FirstRecord(t: seq<Byte>, rs: seq<Record>)
    requires (forall i :: 0 <= i < |rs| ==> rs[i].Valid()) && rs != [] && t == Directory(rs)
    ensures rs[0].Size() <= |t| && t[..rs[0].Size()] == rs[0].Bytes() && t[rs[0].Size()..] == Directory(rs[1..])
  {
    hide Record.Bytes, Record.Valid;
  }

  /** A block ends the directory if and only if the size or the name length of its first record is 0. */
  lemma EndsExactly(b: seq<Byte>)
    requires |b| >= 8
    ensures Ends(b) <==> b[4..6] == [0, 0] || b[6] == 0
  {
    assert b[4..6] == [b[4], b[5]];
  }

  /** The blocks of a directory hold records `rss`, block by block, and the one behind them ends it. */
  predicate HoldsRecords(v: Volume, inode: seq<Byte>, rss: seq<seq<Record>>) {
    && v.Valid() && |inode| == INODE_SIZE && |rss| <= 12
    && (forall k :: 0 <= k < |rss| ==> RecordsIn(v.Block(Pointer(inode, k)), rss[k]))
    && (|rss| < 12 ==> Ends(v.Block(Pointer(inode, |rss|))))
  }

  predicate RecordsIn(b: seq<Byte>, rs: seq<Record>) {
    rs != [] && (forall i :: 0 <= i < |rs| ==> rs[i].Valid()) && b == Directory(rs)
  }

  function AllEntries(rss: seq<seq<Record>>, k: nat): seq<Entry>
    requires k <= |rss|
    decreases |rss| - k
  {
    if k == |rss| then [] else EntriesOf(rss[k]) + AllEntries(rss, k + 1)
  }

  lemma {:induction false} RecordsRead(v: Volume, inode: seq<Byte>, rss: seq<seq<Record>>, k: nat)
    requires HoldsRecords(v, inode, rss) && k <= |rss|
    ensures TiledFrom(v, inode, k) && EntriesFrom(v, inode, k) == AllEntries(rss, k)
    decreases |rss| - k
  {
    hide Volume.Block, Directory, Pointer;
    if k < |rss| {
      var b := v.Block(Pointer(inode, k));
      assert RecordsIn(b, rss[k]);
      assert b[0..] == b;
      DirectoryReads(b, 0, rss[k]);
      NotEnded(b, rss[k]);
      RecordsRead(v, inode, rss, k + 1);
    }
  }

  lemma NotEnded(b: seq<Byte>, rs: seq<Record>)
    requires RecordsIn(b, rs)
    ensures |b| >= 8 && !Ends(b)
  {
    assert b[0..0 + rs[0].Size()] == rs[0].Bytes();
    RecordReads(b, 0, rs[0]);
  }

  /** A lookup in a directory of such records yields the inode of the first whose name is a prefix of the
      component. */
  lemma LookupReads(v: Volume, dir: nat, rss: seq<seq<Record>>, f: Str)
    requires v.Valid() && Described(v, dir) && HoldsRecords(v, InodeBytes(v, dir), rss) && Clean(f)
    ensures Lookup(v, dir, f) == FirstPrefix(AllEntries(rss, 0), f)
  {
    hide InodeBytes, HoldsRecords, AllEntries, EntriesFrom, TiledFrom, Lookup;
    RecordsRead(v, InodeBytes(v, dir), rss, 0);
    LookupFinds(v, dir, f);
  }
}
