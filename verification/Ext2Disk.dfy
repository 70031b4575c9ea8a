/** What the ext2 read path finds on a disk: blocks, inodes, directories, path resolution and file
    bytes, as functions of the disk. Sector and block numbers do not wrap. */
module Ext2Disk {
  import opened Memory
  import opened Tokens

  const SECTOR := 512
  const INODE_SIZE := 128       // sizeof(struct ext2_inode)
  const DESC_SIZE := 32         // sizeof(struct ext2_block_group_desc)
  const ROOT := 2
  const ENOENT := -2
  const ENOSYS := -35
  const DIRECT := 12

  /** A device: sector number and offset to byte. */
  type Device = (nat, nat) -> Byte

  /** What ext2_mount derives from the superblock, for the read path. */
  datatype Volume = Volume(dev: Device, bs: nat, inodesPerGroup: nat, firstBgd: nat) {
    /** `1024 << blocksize_hint` is a multiple of 1024. */
    predicate Valid() { bs > 0 && bs % 1024 == 0 && inodesPerGroup > 0 }

    lemma NotEmpty()
      requires Valid()
      ensures bs > 0
    {
    }

    function SectorsPerBlock(): nat { bs / SECTOR }

    /** The disk as one flat byte array. */
    function Flat(x: nat): Byte { dev(x / SECTOR, x % SECTOR) }

    function Bytes(x: nat, n: nat): (r: seq<Byte>)
      ensures |r| == n
    {
      seq<Byte>(n, i requires 0 <= i < n => Flat(x + i))
    }

    function Block(b: nat): seq<Byte> { Bytes(b * bs, bs) }
  }

  function Le16(s: seq<Byte>, o: nat): nat
    requires o + 2 <= |s|
  {
    s[o] as nat + 0x100 * s[o + 1] as nat
  }

  function Le32(s: seq<Byte>, o: nat): (r: nat)
    requires o + 4 <= |s|
    ensures r < WORD_LIMIT
  {
    Word(s, o)
  }

  /** A 32-bit unsigned value stored in an int. */
  function ToInt(v: nat): int
    requires v < WORD_LIMIT
  {
    if v < WORD_LIMIT / 2 then v else v - WORD_LIMIT
  }

  // ---------------------------------------------------------------- division

  /** `x / d`. */
  function Div(x: nat, d: nat): (q: nat)
    requires d > 0
    ensures q * d <= x < q * d + d && x == q * d + x % d
  {
    x / d
  }

  function Mod(x: nat, d: nat): (r: nat)
    requires d > 0
    ensures r < d && r == x % d
  {
    x % d
  }

  /** Offset `o` of block `b` on the flat disk. */
  function FlatPosition(b: nat, bs: nat, o: nat): nat { b * bs + o }

  lemma QuotientIs(x: nat, d: nat, q: nat, r: nat)
    requires d > 0 && x == q * d + r && r < d
    ensures x / d == q && x % d == r
  {
    var q', r' := x / d, x % d;
    assert (q - q') * d == r' - r && (q' - q) * d == r - r';
    if q > q' {
      AtLeastOne(q - q', d);
    } else if q' > q {
      AtLeastOne(q' - q, d);
    }
  }

  lemma AtLeastOne(k: nat, d: nat)
    requires k >= 1
    ensures k * d >= d
  {
    assert k * d == d + (k - 1) * d;
  }

  lemma DivMonotone(x: nat, y: nat, d: nat)
    requires d > 0 && x <= y
    ensures Div(x, d) <= Div(y, d)
  {
    var p, q := Div(x, d), Div(y, d);
    if p > q {
      AtLeastOne(p - q, d);
    }
  }

  lemma DivIs(x: nat, d: nat, q: nat)
    requires d > 0 && q * d <= x < q * d + d
    ensures Div(x, d) == q && x % d == x - q * d
  {
    QuotientIs(x, d, q, x - q * d);
  }

  // ---------------------------------------------------------------- inodes

  function Group(v: Volume, ino: nat): nat
    requires v.Valid() && ino > 0
  {
    (ino - 1) / v.inodesPerGroup
  }

  /** The group's descriptor is in the first descriptor block, the only one that is read. */
  predicate Described(v: Volume, ino: int)
    requires v.Valid()
  {
    ino > 0 && Group(v, ino) * DESC_SIZE + DESC_SIZE <= v.bs
  }

  /** First block of the inode table of the group of `ino`. */
  function TableOf(v: Volume, ino: nat): nat
    requires v.Valid() && Described(v, ino)
  {
    Le32(v.Block(v.firstBgd), Group(v, ino) * DESC_SIZE + 8)
  }

  /** The inode is entry `(ino - 1) mod inodesPerGroup` of its group's table. */
  function TableIndex(v: Volume, ino: nat): nat
    requires v.Valid() && ino > 0
  {
    Mod(ino - 1, v.inodesPerGroup)
  }

  /** Tables are contiguous on disk, entries of 128 bytes. */
  function InodeBytes(v: Volume, ino: nat): (r: seq<Byte>)
    requires v.Valid() && Described(v, ino)
    ensures |r| == INODE_SIZE
  {
    v.Bytes(FlatPosition(TableOf(v, ino), v.bs, TableIndex(v, ino) * INODE_SIZE), INODE_SIZE)
  }

  /** The block of the table, and the byte in it, where ext2_read_inode looks for entry `index`. */
  function TableBlock(v: Volume, index: nat): nat
    requires v.Valid()
  {
    Div(index * INODE_SIZE, v.bs)
  }

  function TableSlot(v: Volume, index: nat): nat
    requires v.Valid()
  {
    Mod(index, v.bs / INODE_SIZE) * INODE_SIZE
  }

  /** Slot arithmetic: that block and byte are the entry's flat position, and the entry does not
      straddle a block boundary. */
  lemma SlotPosition(v: Volume, index: nat)
    requires v.Valid()
    ensures TableBlock(v, index) * v.bs + TableSlot(v, index) == index * INODE_SIZE
    ensures TableSlot(v, index) + INODE_SIZE <= v.bs
  {
    var ipb := v.bs / INODE_SIZE;
    assert v.bs == ipb * INODE_SIZE;
    var q, r := Div(index, ipb), Mod(index, ipb);
    assert q * v.bs == q * ipb * INODE_SIZE;
    QuotientIs(index * INODE_SIZE, v.bs, q, r * INODE_SIZE);
  }

  lemma Distribute(a: nat, b: nat, d: nat)
    ensures (a + b) * d == a * d + b * d
  {
  }

  /** The 128 bytes ext2_read_inode copies out are the inode. */
  lemma InodePosition(v: Volume, ino: nat)
    requires v.Valid() && Described(v, ino)
    ensures var index := TableIndex(v, ino);
            var slot := TableSlot(v, index);
            && slot + INODE_SIZE <= v.bs
            && v.Block(TableOf(v, ino) + TableBlock(v, index))[slot..slot + INODE_SIZE] == InodeBytes(v, ino)
  {
    hide TableSlot, TableBlock, TableIndex, TableOf;
    var index := TableIndex(v, ino);
    SlotPosition(v, index);
    Distribute(TableOf(v, ino), TableBlock(v, index), v.bs);
  }

  /** Sector arithmetic: reading `bs / 512` sectors from sector `b * (bs / 512)` reads block `b`. */
  lemma SectorPosition(bs: nat, b: nat, i: nat)
    requires bs > 0 && bs % 1024 == 0 && i < bs
    ensures var spb := bs / SECTOR;
            (b * bs + i) / SECTOR == b * spb + i / SECTOR && (b * bs + i) % SECTOR == i % SECTOR
  {
    var spb := bs / SECTOR;
    assert bs == spb * SECTOR;
    assert b * bs == b * spb * SECTOR;
    QuotientIs(b * bs + i, SECTOR, b * spb + i / SECTOR, i % SECTOR);
  }

  // ---------------------------------------------------------------- directories

  /** Outcome of a lookup. `Wild` is a read outside the block buffer, after which C promises nothing. */
  datatype Found = Inode(ino: int) | Missing | Wild

  datatype Comparison = Same | Differs | Outside

  /** strncmp of the `n` bytes at `o` of the block against the C string `f`, from character `i` on. */
  function CompareName(b: seq<Byte>, o: nat, n: nat, f: Str, i: nat): Comparison
    requires i <= n
    decreases n - i
  {
    if i == n then Same
    else if o + i >= |b| || i > |f| then Outside
    else if b[o + i] as int != (if i < |f| then f[i] else 0) then Differs
    else CompareName(b, o, n, f, i + 1)
  }

  function RecordSize(b: seq<Byte>, r: nat): nat
    requires r + 7 <= |b|
  {
    Le16(b, r + 4)
  }

  function NameLength(b: seq<Byte>, r: nat): nat
    requires r + 7 <= |b|
  {
    b[r + 6] as nat
  }

  /** The inner loop of ext2_read_directory, from record `r` of a block; Missing goes on to the next block. */
  function WalkBlock(b: seq<Byte>, r: nat, f: Str): Found
    decreases |b| - r
  {
    if r >= |b| then Missing
    else if r + 7 > |b| then Wild
    else
      match CompareName(b, r + 8, NameLength(b, r), f, 0)
      case Same => Inode(ToInt(Le32(b, r)))
      case Outside => Wild
      case Differs => if RecordSize(b, r) == 0 then Missing else WalkBlock(b, r + RecordSize(b, r), f)
  }

  function Pointer(inode: seq<Byte>, i: nat): nat
    requires |inode| == INODE_SIZE && i < 15
  {
    Le32(inode, 40 + 4 * i)
  }

  /** A block that starts with an empty record ends the directory. */
  predicate Ends(b: seq<Byte>)
    requires |b| >= 7
  {
    RecordSize(b, 0) == 0 || NameLength(b, 0) == 0
  }

  /** The outer loop of ext2_read_directory, from direct block `i`. */
  function WalkBlocks(v: Volume, inode: seq<Byte>, i: nat, f: Str): Found
    requires v.Valid() && |inode| == INODE_SIZE && i <= DIRECT
    decreases DIRECT - i
  {
    if i == DIRECT then Missing
    else
      var b := v.Block(Pointer(inode, i));
      if Ends(b) then Missing
      else
        match WalkBlock(b, 0, f)
        case Missing => WalkBlocks(v, inode, i + 1, f)
        case found => found
  }

  /** ext2_read_directory. */
  function Lookup(v: Volume, dir: int, f: Str): Found
    requires v.Valid()
  {
    if !Described(v, dir) then Wild else WalkBlocks(v, InodeBytes(v, dir), 0, f)
  }

  // ---------------------------------------------------------------- well-formed directories

  datatype Entry = Entry(ino: int, name: Str)

  function NameAt(b: seq<Byte>, r: nat): Str
    requires r + 7 <= |b| && r + 8 + NameLength(b, r) <= |b|
  {
    seq(NameLength(b, r), i requires 0 <= i < NameLength(b, r) => b[r + 8 + i] as int)
  }

  /** Records tile the block from `r` on; names are not empty and hold no terminator. */
  predicate Tiled(b: seq<Byte>, r: nat)
    decreases |b| - r
  {
    r == |b| ||
    (&& r + 8 <= |b|
     && var n, z := NameLength(b, r), RecordSize(b, r);
        && 0 < n && 8 + n <= z && r + z <= |b| && Clean(NameAt(b, r)) && Tiled(b, r + z))
  }

  function Entries(b: seq<Byte>, r: nat): seq<Entry>
    requires Tiled(b, r)
    decreases |b| - r
  {
    if r == |b| then [] else [Entry(ToInt(Le32(b, r)), NameAt(b, r))] + Entries(b, r + RecordSize(b, r))
  }

  /** The first entry whose name is a prefix of `f`. */
  function FirstPrefix(es: seq<Entry>, f: Str): Found {
    if es == [] then Missing else if es[0].name <= f then Inode(es[0].ino) else FirstPrefix(es[1..], f)
  }

  lemma {:induction false} CompareIsPrefix(b: seq<Byte>, r: nat, f: Str, i: nat)
    requires r + 8 <= |b| && r + 8 + NameLength(b, r) <= |b| && Clean(NameAt(b, r)) && Clean(f)
    requires i <= NameLength(b, r) && i <= |f| && NameAt(b, r)[..i] == f[..i]
    ensures CompareName(b, r + 8, NameLength(b, r), f, i) == if NameAt(b, r) <= f then Same else Differs
    decreases NameLength(b, r) - i
  {
    var n, name := NameLength(b, r), NameAt(b, r);
    if i == n {
      assert name[..i] == name;
    } else if i < |f| && name[i] == f[i] {
      assert name[..i + 1] == name[..i] + [name[i]] && f[..i + 1] == f[..i] + [f[i]];
      CompareIsPrefix(b, r, f, i + 1);
    }
  }

  lemma {:induction false} WalkFinds(b: seq<Byte>, r: nat, f: Str)
    requires Tiled(b, r) && Clean(f)
    ensures WalkBlock(b, r, f) == FirstPrefix(Entries(b, r), f)
    decreases |b| - r
  {
    if r < |b| {
      CompareIsPrefix(b, r, f, 0);
      WalkFinds(b, r + RecordSize(b, r), f);
    }
  }

  /** Every block up to the one that ends the directory is tiled. */
  predicate TiledFrom(v: Volume, inode: seq<Byte>, i: nat)
    requires v.Valid() && |inode| == INODE_SIZE && i <= DIRECT
    decreases DIRECT - i
  {
    i == DIRECT || (var b := v.Block(Pointer(inode, i)); Ends(b) || (Tiled(b, 0) && TiledFrom(v, inode, i + 1)))
  }

  function EntriesFrom(v: Volume, inode: seq<Byte>, i: nat): seq<Entry>
    requires v.Valid() && |inode| == INODE_SIZE && i <= DIRECT && TiledFrom(v, inode, i)
    decreases DIRECT - i
  {
    if i == DIRECT then []
    else
      var b := v.Block(Pointer(inode, i));
      if Ends(b) then [] else Entries(b, 0) + EntriesFrom(v, inode, i + 1)
  }

  lemma {:induction false} FirstPrefixAppend(a: seq<Entry>, b: seq<Entry>, f: Str)
    ensures FirstPrefix(a + b, f) == if FirstPrefix(a, f) == Missing then FirstPrefix(b, f) else FirstPrefix(a, f)
  {
    if a == [] {
      assert a + b == b;
    } else {
      assert (a + b)[1..] == a[1..] + b;
      FirstPrefixAppend(a[1..], b, f);
    }
  }

  lemma {:induction false} WalkBlocksFinds(v: Volume, inode: seq<Byte>, i: nat, f: Str)
    requires v.Valid() && |inode| == INODE_SIZE && i <= DIRECT && TiledFrom(v, inode, i) && Clean(f)
    ensures WalkBlocks(v, inode, i, f) == FirstPrefix(EntriesFrom(v, inode, i), f)
    decreases DIRECT - i
  {
    if i < DIRECT {
      var b := v.Block(Pointer(inode, i));
      if !Ends(b) {
        WalkFinds(b, 0, f);
        WalkBlocksFinds(v, inode, i + 1, f);
        FirstPrefixAppend(Entries(b, 0), EntriesFrom(v, inode, i + 1), f);
      }
    }
  }

  /** In a well-formed directory, a lookup yields the first entry whose name is a prefix of the component. */
  lemma LookupFinds(v: Volume, dir: int, f: Str)
    requires v.Valid() && Described(v, dir) && TiledFrom(v, InodeBytes(v, dir), 0) && Clean(f)
    ensures Lookup(v, dir, f) == FirstPrefix(EntriesFrom(v, InodeBytes(v, dir), 0), f)
  {
    WalkBlocksFinds(v, InodeBytes(v, dir), 0, f);
  }

  /** The lookup a directory ought to give: the first entry with exactly that name. */
  function FirstExact(es: seq<Entry>, f: Str): Found {
    if es == [] then Missing else if es[0].name == f then Inode(es[0].ino) else FirstExact(es[1..], f)
  }

  /** The position of the entry a test settles on. */
  function IndexPrefix(es: seq<Entry>, f: Str): (k: nat)
    ensures k <= |es|
  {
    if es == [] || es[0].name <= f then 0 else 1 + IndexPrefix(es[1..], f)
  }

  function IndexExact(es: seq<Entry>, f: Str): (k: nat)
    ensures k <= |es|
  {
    if es == [] || es[0].name == f then 0 else 1 + IndexExact(es[1..], f)
  }

  /** Exact-name lookup and the code's prefix lookup settle on the same entry if and only if no
      entry in front of the exact one is named by a proper prefix of the component. */
  lemma {:induction false} ExactWhenNoPrefix(es: seq<Entry>, f: Str)
    ensures IndexPrefix(es, f) == IndexExact(es, f) <==> forall j :: 0 <= j < IndexExact(es, f) ==> !(es[j].name < f)
    ensures IndexPrefix(es, f) == IndexExact(es, f) ==> FirstPrefix(es, f) == FirstExact(es, f)
  {
    if es != [] && es[0].name != f {
      ExactWhenNoPrefix(es[1..], f);
      if !(es[0].name <= f) {
        assert forall j :: 0 < j < IndexExact(es, f) ==> es[j] == es[1..][j - 1];
      }
    }
  }

  /** The bytes of a small disk with blocks of 1024 bytes: the descriptor of the only group names block 0
      as its inode table, the root directory's first pointer is block 2, and block 2 holds the entries
      "a" of inode 11 and "ab" of inode 12. */
  function SmallDisk(x: nat): Byte {
    if x == 168 then 2
    else if x == 2048 then 11 else if x == 2052 then 12 else if x == 2054 then 1 else if x == 2056 then 97
    else if x == 2060 then 12 else if x == 2064 then 0xF4 else if x == 2065 then 3 else if x == 2066 then 2
    else if x == 2068 then 97 else if x == 2069 then 98
    else 0
  }

  ghost predicate HoldsSmallDisk(v: Volume) {
    v == Volume(v.dev, 1024, 8, 1) && forall s: nat, o: nat :: o < SECTOR ==> v.dev(s, o) == SmallDisk(s * SECTOR + o)
  }

  function SmallVolume(): (v: Volume)
    ensures HoldsSmallDisk(v)
  {
    Volume((s: nat, o: nat) => SmallDisk(s * SECTOR + o), 1024, 8, 1)
  }

  lemma SmallFlat(v: Volume, x: nat)
    requires HoldsSmallDisk(v)
    ensures v.Flat(x) == SmallDisk(x)
  {
    hide SmallDisk;
    assert x / SECTOR * SECTOR + x % SECTOR == x;
  }

  lemma SmallBlock(v: Volume, b: nat, i: nat)
    requires HoldsSmallDisk(v) && i < 1024
    ensures v.Block(b)[i] == SmallDisk(b * 1024 + i)
  {
    hide SmallDisk, HoldsSmallDisk;
    assert v.bs == 1024 by {
      SmallSizes(v);
    }
    SmallFlat(v, b * 1024 + i);
  }

  lemma SmallSizes(v: Volume)
    requires HoldsSmallDisk(v)
    ensures v.Valid() && v.bs == 1024 && v.inodesPerGroup == 8 && v.firstBgd == 1
  {
  }

  lemma SmallRoot(v: Volume)
    requires HoldsSmallDisk(v)
    ensures v.Valid() && Described(v, ROOT)
    ensures Pointer(InodeBytes(v, ROOT), 0) == 2 && Pointer(InodeBytes(v, ROOT), 1) == 0
  {
    hide HoldsSmallDisk;
    SmallSizes(v);
    assert Group(v, ROOT) == 0 && TableIndex(v, ROOT) == 1;
    var b := v.Block(1);
    SmallBlock(v, 1, 8);
    SmallBlock(v, 1, 9);
    SmallBlock(v, 1, 10);
    SmallBlock(v, 1, 11);
    assert TableOf(v, ROOT) == 0;
    var inode := InodeBytes(v, ROOT);
    forall i | 40 <= i < 48 ensures inode[i] == SmallDisk(128 + i) {
      SmallFlat(v, 128 + i);
    }
  }

  /** On that disk, looking for "ab" in the root directory finds the entry "a". */
  lemma PrefixHides(v: Volume)
    requires v == SmallVolume()
    ensures v.Valid() && Described(v, ROOT) && TiledFrom(v, InodeBytes(v, ROOT), 0)
    ensures Lookup(v, ROOT, [97, 98]) == Inode(11)
    ensures FirstExact(EntriesFrom(v, InodeBytes(v, ROOT), 0), [97, 98]) == Inode(12)
  {
    hide InodeBytes, Volume.Block, SmallDisk, SmallVolume, HoldsSmallDisk, WalkBlocks;
    SmallRoot(v);
    var inode := InodeBytes(v, ROOT);
    SmallEntries(v);
    SmallEnd(v);
    var es := EntriesFrom(v, inode, 0);
    assert EntriesFrom(v, inode, 1) == [];
    assert es == [Entry(11, [97]), Entry(12, [97, 98])];
    assert es[1..] == [Entry(12, [97, 98])];
    LookupFinds(v, ROOT, [97, 98]);
  }

  lemma SmallEnd(v: Volume)
    requires HoldsSmallDisk(v)
    ensures |v.Block(0)| >= 7 && Ends(v.Block(0))
  {
    hide HoldsSmallDisk;
    SmallSizes(v);
    SmallBlock(v, 0, 4);
    SmallBlock(v, 0, 5);
  }

  lemma SmallEntries(v: Volume)
    requires HoldsSmallDisk(v)
    ensures var b := v.Block(2);
            |b| == 1024 && !Ends(b) && Tiled(b, 0) && Entries(b, 0) == [Entry(11, [97]), Entry(12, [97, 98])]
  {
    hide HoldsSmallDisk, Volume.Block;
    SmallSizes(v);
    var b := v.Block(2);
    SmallLength(v);
    forall i | 0 <= i < 24 ensures b[i] == SmallDisk(2048 + i) {
      SmallBlock(v, 2, i);
    }
    assert RecordSize(b, 0) == 12 && NameLength(b, 0) == 1 && NameAt(b, 0) == [97];
    assert RecordSize(b, 12) == 1012 && NameLength(b, 12) == 2 && NameAt(b, 12) == [97, 98];
    assert Tiled(b, 1024) && Entries(b, 1024) == [];
    assert Tiled(b, 12) && Entries(b, 12) == [Entry(12, [97, 98])];
  }

  lemma SmallLength(v: Volume)
    requires HoldsSmallDisk(v)
    ensures |v.Block(2)| == 1024
  {
  }

  // ---------------------------------------------------------------- paths

  const SLASH: Str := [47]

  datatype Pending = NoScan | Scan(rest: Str)

  /** The result of ext2_find_file_inode and the tokenizer scan it leaves behind. */
  datatype Resolution = Resolution(found: Found, pending: Pending)

  /** The loop of ext2_find_file_inode: `s` is still to be tokenized, `ino` is the inode reached. */
  function Resolve(v: Volume, s: Str, ino: int): Resolution
    requires v.Valid()
    decreases |s|
  {
    match Next(s, SLASH)
    case NoToken => Resolution(Inode(ino), NoScan)
    case Token(t, rest) =>
      match Lookup(v, ino, t)
      case Inode(k) => if k < 0 then Resolution(Missing, Scan(rest)) else Resolve(v, rest, k)
      case Missing => Resolution(Missing, Scan(rest))
      case Wild => Resolution(Wild, Scan(rest))
  }

  /** ext2_find_file_inode with the tokenizer in state `pending`. */
  function FindInode(v: Volume, pending: Pending, path: Str): Resolution
    requires v.Valid()
  {
    Resolve(v, if pending.Scan? then pending.rest else path, ROOT)
  }

  /** The reference: look the components up one after the other. */
  function Follow(v: Volume, dir: int, components: seq<Str>): Found
    requires v.Valid()
    decreases |components|
  {
    if components == [] then Inode(dir)
    else
      match Lookup(v, dir, components[0])
      case Inode(k) => if k < 0 then Missing else Follow(v, k, components[1..])
      case found => found
  }

  /** Path resolution is the left fold of directory lookup over the components of the path. */
  lemma {:induction false} ResolveFollows(v: Volume, s: Str, ino: int)
    requires v.Valid()
    ensures Resolve(v, s, ino).found == Follow(v, ino, AllTokens(s, SLASH))
    decreases |s|
  {
    match Next(s, SLASH)
    case NoToken =>
    case Token(t, rest) =>
      assert AllTokens(s, SLASH)[1..] == AllTokens(rest, SLASH);
      match Lookup(v, ino, t)
      case Inode(k) => if k >= 0 { ResolveFollows(v, rest, k); }
      case _ =>
  }

  /** A resolution leaves the tokenizer idle exactly when it succeeds. */
  lemma {:induction false} PendingAfter(v: Volume, s: Str, ino: int)
    requires v.Valid() && ino >= 0
    ensures var r := Resolve(v, s, ino);
            (r.pending == NoScan <==> r.found.Inode?) && (r.found.Inode? ==> r.found.ino >= 0)
    decreases |s|
  {
    match Next(s, SLASH)
    case NoToken =>
    case Token(t, rest) =>
      match Lookup(v, ino, t)
      case Inode(k) => if k >= 0 { PendingAfter(v, rest, k); }
      case _ =>
  }

  lemma FoundIdle(v: Volume, pending: Pending, path: Str)
    requires v.Valid()
    ensures FindInode(v, pending, path).found.Inode? <==> FindInode(v, pending, path).pending == NoScan
  {
    PendingAfter(v, if pending.Scan? then pending.rest else path, ROOT);
  }

  /** With no scan pending, ext2_find_file_inode follows the maximal segments between slashes. */
  lemma FindFollows(v: Volume, path: Str)
    requires v.Valid()
    ensures FindInode(v, NoScan, path).found == Follow(v, ROOT, NonEmpty(Split(path, SLASH)))
  {
    ResolveFollows(v, path, ROOT);
    TokensAreSegments(path, SLASH);
  }

  /** The path leads through tiled directories in which no entry in front of a component's own is named
      by a proper prefix of it. */
  predicate Unhidden(v: Volume, dir: int, components: seq<Str>)
    requires v.Valid()
    decreases |components|
  {
    components == [] ||
    (&& Described(v, dir) && TiledFrom(v, InodeBytes(v, dir), 0) && Clean(components[0])
     && var es := EntriesFrom(v, InodeBytes(v, dir), 0);
        && (forall j :: 0 <= j < IndexExact(es, components[0]) ==> !(es[j].name < components[0]))
        && match FirstExact(es, components[0])
           case Inode(k) => k < 0 || Unhidden(v, k, components[1..])
           case _ => true)
  }

  /** What resolution ought to be: follow the entries with exactly the components' names. */
  function FollowExact(v: Volume, dir: int, components: seq<Str>): Found
    requires v.Valid() && Unhidden(v, dir, components)
    decreases |components|
  {
    if components == [] then Inode(dir)
    else
      match FirstExact(EntriesFrom(v, InodeBytes(v, dir), 0), components[0])
      case Inode(k) => if k < 0 then Missing else FollowExact(v, k, components[1..])
      case found => found
  }

  lemma {:induction false} FollowsExactly(v: Volume, dir: int, components: seq<Str>)
    requires v.Valid() && Unhidden(v, dir, components)
    ensures Follow(v, dir, components) == FollowExact(v, dir, components)
    decreases |components|
  {
    hide InodeBytes, EntriesFrom, TiledFrom, Lookup, FirstPrefix, FirstExact, IndexExact, IndexPrefix;
    if components != [] {
      var es := EntriesFrom(v, InodeBytes(v, dir), 0);
      LookupFinds(v, dir, components[0]);
      ExactWhenNoPrefix(es, components[0]);
      match FirstExact(es, components[0])
      case Inode(k) =>
        if k >= 0 {
          FollowsExactly(v, k, components[1..]);
        }
      case _ =>
    }
  }

  /** Path resolution follows exact names, along paths where no entry hides another. */
  lemma FindExact(v: Volume, path: Str)
    requires v.Valid() && Unhidden(v, ROOT, NonEmpty(Split(path, SLASH)))
    ensures FindInode(v, NoScan, path).found == FollowExact(v, ROOT, NonEmpty(Split(path, SLASH)))
  {
    hide Unhidden, FollowExact, Follow, FindInode, Split;
    FindFollows(v, path);
    FollowsExactly(v, ROOT, NonEmpty(Split(path, SLASH)));
  }

  /** With a scan pending, the path is ignored: what is resolved is the rest of the old one. */
  lemma StaleScan(v: Volume, rest: Str, path: Str)
    requires v.Valid()
    ensures FindInode(v, Scan(rest), path).found == Follow(v, ROOT, NonEmpty(Split(rest, SLASH)))
    ensures NonEmpty(Split(rest, SLASH)) == [] ==> FindInode(v, Scan(rest), path) == Resolution(Inode(ROOT), NoScan)
  {
    ResolveFollows(v, rest, ROOT);
    TokensAreSegments(rest, SLASH);
  }

  /** A failed lookup leaves such a scan behind. When its last component was the one missing, the next
      lookup returns the root directory, whatever its path. */
  lemma AfterFailure(v: Volume, s: Str, path: Str)
    requires v.Valid() && FindInode(v, NoScan, s).found == Missing
    ensures FindInode(v, NoScan, s).pending.Scan?
    ensures var rest := FindInode(v, NoScan, s).pending.rest;
            NonEmpty(Split(rest, SLASH)) == [] ==>
              FindInode(v, FindInode(v, NoScan, s).pending, path) == Resolution(Inode(ROOT), NoScan)
  {
    PendingAfter(v, s, ROOT);
    StaleScan(v, FindInode(v, NoScan, s).pending.rest, path);
  }

  /** Whatever volume and path, a lookup finds what it finds with an idle tokenizer. */
  ghost predicate Unaffected(pending: Pending) {
    forall v: Volume, path: Str ::
      v.Valid() ==> FindInode(v, pending, path).found == FindInode(v, NoScan, path).found
  }

  /** Path resolution can be relied on exactly when no scan is pending. */
  lemma IdleOnly(pending: Pending)
    ensures Unaffected(pending) <==> pending == NoScan
  {
    if pending != NoScan {
      var v := Volume((sector, offset) => 0, 1024, 8, 1);
      BlankVolume(v);
      assert FindInode(v, pending, []) == FindInode(v, pending, [1]);
      assert Next([1], SLASH).Token? by {
        assert Skip([1], SLASH) == [1];
      }
      assert FindInode(v, NoScan, [1]).found == Missing;
      assert FindInode(v, NoScan, []).found == Inode(ROOT);
    }
  }

  /** On a disk of zeros the root directory is empty. */
  lemma BlankVolume(v: Volume)
    requires v.bs == 1024 && v.inodesPerGroup == 8 && forall sector, offset :: v.dev(sector, offset) == 0
    ensures v.Valid() && forall f :: Lookup(v, ROOT, f) == Missing
  {
    hide InodeBytes, FlatPosition, TableOf, TableIndex;
    assert Described(v, ROOT) by {
      assert Group(v, ROOT) == 0;
    }
    var p := Pointer(InodeBytes(v, ROOT), 0);
    var x := p * v.bs;
    var b := v.Block(p);
    assert b[4] == v.Flat(x + 4) && b[5] == v.Flat(x + 5);
    assert v.Flat(x + 4) == v.dev((x + 4) / SECTOR, (x + 4) % SECTOR);
    assert v.Flat(x + 5) == v.dev((x + 5) / SECTOR, (x + 5) % SECTOR);
    assert Ends(b);
  }

  // ---------------------------------------------------------------- files

  /** The blocks ext2_file_read_block can find: twelve direct ones, and singly indirect ones below bs / 4. */
  predicate Supported(v: Volume, b: nat) { b < DIRECT || b < v.bs / 4 }

  function FileBlock(v: Volume, ino: nat, b: nat): nat
    requires v.Valid() && Described(v, ino) && Supported(v, b)
  {
    var inode := InodeBytes(v, ino);
    if b < DIRECT then Pointer(inode, b) else Le32(v.Block(Pointer(inode, 12)), 4 * (b - DIRECT))
  }

  /** What ext2_file_read_block reads the block from: a block of the disk, nothing at all (with an error
      return), or memory outside a buffer. */
  datatype Source = From(block: nat) | Unsupported | Stray

  /** The block ext2_file_read_block reads for block `b` of the file. The index into the indirect block
      is a local variable that is still uninitialised, because its declaration shadows `b`
      (`uint32_t b = bb[b - 12]`): `stray` is the value it happens to hold. */
  function ReadFrom(v: Volume, ino: nat, b: nat, stray: nat): Source
    requires v.Valid() && Described(v, ino)
  {
    var inode := InodeBytes(v, ino);
    if b < DIRECT then From(Pointer(inode, b))
    else if b < v.bs / 4 then
      if DIRECT <= stray < DIRECT + v.bs / 4
      then From(Le32(v.Block(Pointer(inode, DIRECT)), 4 * (stray - DIRECT)))
      else Stray
    else Unsupported
  }

  /** So the block read is the file's, whatever the uninitialised variable holds, if and only if it is
      one of the twelve direct blocks; an indirect one is right when the variable holds its number, and read
      from outside the indirect block exactly when the variable leads there. */
  lemma RightBlock(v: Volume, ino: nat, b: nat)
    requires v.Valid() && Described(v, ino) && Supported(v, b)
    ensures (forall stray: nat :: ReadFrom(v, ino, b, stray) == From(FileBlock(v, ino, b))) <==> b < DIRECT
    ensures ReadFrom(v, ino, b, b) == From(FileBlock(v, ino, b))
    ensures forall stray: nat ::
              ReadFrom(v, ino, b, stray) == Stray <==> DIRECT <= b && (stray < DIRECT || 4 * (stray - DIRECT) + 4 > v.bs)
  {
    if b >= DIRECT {
      assert ReadFrom(v, ino, b, 0) == Stray;
    }
  }

  /** The values the uninitialised variable holds while `n` blocks from block `first` on are read, one per
      block: at every indirect block the block's own number. */
  ghost predicate Aimed(v: Volume, strays: nat -> nat, first: nat, n: nat) {
    forall b: nat :: first <= b < first + n && DIRECT <= b < v.bs / 4 ==> strays(b) == b
  }

  /** None of `n` blocks from block `first` on is read through the indirect block. */
  predicate NoIndirect(v: Volume, first: nat, n: nat) {
    first + n <= DIRECT || first >= v.bs / 4 || v.bs / 4 <= DIRECT || n == 0
  }

  /** Some of those blocks is looked for outside the indirect block. */
  ghost predicate Misses(v: Volume, strays: nat -> nat, first: nat, n: nat) {
    exists b: nat :: first <= b < first + n && DIRECT <= b < v.bs / 4 && Missed(v, strays(b))
  }

  predicate Missed(v: Volume, stray: nat) { !(DIRECT <= stray < DIRECT + v.bs / 4) }

  /** The variable can be right at every block, whatever it holds, only where no indirect block is read. */
  lemma AlwaysAimed(v: Volume, first: nat, n: nat)
    ensures (forall strays: nat -> nat :: Aimed(v, strays, first, n)) <==> NoIndirect(v, first, n)
  {
    if !NoIndirect(v, first, n) {
      var none: nat -> nat := b => 0;
      var b := if first < DIRECT then DIRECT else first;
      assert none(b) != b;
      assert !Aimed(v, none, first, n);
    }
  }

  /** Byte `x` of the file, its blocks laid end to end. */
  function FileByte(v: Volume, ino: nat, x: nat): Byte
    requires v.Valid() && Described(v, ino) && Supported(v, Div(x, v.bs))
  {
    v.Flat(FlatPosition(FileBlock(v, ino, Div(x, v.bs)), v.bs, Mod(x, v.bs)))
  }

  /** Every byte below `to` is in a supported block. */
  predicate Reaches(v: Volume, to: nat)
    requires v.Valid()
  {
    to == 0 || Supported(v, Div(to - 1, v.bs))
  }

  lemma ReachesBelow(v: Volume, to: nat, x: nat)
    requires v.Valid() && Reaches(v, to) && x < to
    ensures Supported(v, Div(x, v.bs))
  {
    DivMonotone(x, to - 1, v.bs);
  }

  function FileBytes(v: Volume, ino: nat, pos: nat, count: nat): (r: seq<Byte>)
    requires v.Valid() && Described(v, ino) && Reaches(v, pos + count)
    ensures |r| == count
  {
    seq<Byte>(count, i requires 0 <= i < count => ReachesBelow(v, pos + count, pos + i); FileByte(v, ino, pos + i))
  }

  /** The flat view of a file is the concatenation of its parts. */
  lemma FileBytesAppend(v: Volume, ino: nat, pos: nat, a: nat, b: nat)
    requires v.Valid() && Described(v, ino) && Reaches(v, pos + a + b) && Reaches(v, pos + a)
    ensures FileBytes(v, ino, pos, a) + FileBytes(v, ino, pos + a, b) == FileBytes(v, ino, pos, a + b)
  {
  }

  /** The blocks ext2_read_file fetches hold the bytes it copies out. */
  predicate Fits(v: Volume, pos: nat, count: nat)
    requires v.Valid()
  {
    pos % v.bs + count % v.bs <= v.bs
  }

  /** Where in the fetched blocks the copy starts. */
  function Start(v: Volume, pos: nat): nat
    requires v.Valid()
  {
    pos - Div(pos, v.bs) * v.bs
  }

  /** The copy stays inside the `count / bs + 1` fetched blocks exactly for the reads that fit. */
  lemma FitsExactly(v: Volume, pos: nat, count: nat)
    requires v.Valid()
    ensures Fits(v, pos, count) <==> Start(v, pos) + count <= (Div(count, v.bs) + 1) * v.bs
  {
    Distribute(Div(count, v.bs), 1, v.bs);
  }

  /** A read that does not fit: 100 bytes from position 1000 with blocks of 1024 bytes. */
  lemma ShortFetch(v: Volume)
    requires v.Valid() && v.bs == 1024
    ensures !Fits(v, 1000, 100) && Start(v, 1000) + 100 > (Div(100, v.bs) + 1) * v.bs
  {
    assert Div(1000, 1024) == 0 && Div(100, 1024) == 0;
  }

  /** Reading front to back in whole blocks always fits. */
  lemma AlignedFits(v: Volume, pos: nat, count: nat)
    requires v.Valid() && (pos % v.bs == 0 || count % v.bs == 0)
    ensures Fits(v, pos, count)
  {
  }

  /** With no scan pending, the path leads to an inode that can be read. */
  predicate Resolves(v: Volume, path: Str)
    requires v.Valid()
  {
    var r := FindInode(v, NoScan, path);
    r.found.Inode? && r.pending == NoScan && Described(v, r.found.ino)
  }

  function Target(v: Volume, path: Str): (ino: nat)
    requires v.Valid() && Resolves(v, path)
    ensures Described(v, ino) && FindInode(v, NoScan, path) == Resolution(Inode(ino), NoScan)
  {
    FindInode(v, NoScan, path).found.ino
  }

  // ---------------------------------------------------------------- what a read delivers

  /** Buffer `s` holds what `n` reads of blocks, from block `first` of the file on, put there. */
  ghost predicate Fetched(v: Volume, ino: nat, strays: nat -> nat, s: seq<Byte>, first: nat, n: nat)
    requires v.Valid() && Described(v, ino)
  {
    n * v.bs <= |s| && forall k: nat :: k < n ==> FetchedOne(v, ino, strays, s, first, k)
  }

  ghost predicate FetchedOne(v: Volume, ino: nat, strays: nat -> nat, s: seq<Byte>, first: nat, k: nat)
    requires v.Valid() && Described(v, ino)
  {
    match ReadFrom(v, ino, first + k, strays(first + k))
    case From(block) => BlockIn(v, s, k) == v.Block(block)
    case _ => true
  }

  ghost function BlockIn(v: Volume, s: seq<Byte>, k: nat): (r: seq<Byte>)
    ensures k * v.bs + v.bs <= |s| ==> |r| == v.bs && r == s[k * v.bs..k * v.bs + v.bs]
  {
    if k * v.bs + v.bs <= |s| then s[k * v.bs..k * v.bs + v.bs] else []
  }

  lemma MulMonotone(a: nat, b: nat, d: nat)
    requires a <= b
    ensures a * d <= b * d
  {
    Distribute(a, b - a, d);
  }

  /** The byte read for byte `x` of the file: the same byte of the block that is read instead of its own. */
  function SourceByte(v: Volume, ino: nat, strays: nat -> nat, x: nat): Byte
    requires v.Valid() && Described(v, ino)
    requires ReadFrom(v, ino, Div(x, v.bs), strays(Div(x, v.bs))).From?
  {
    v.Flat(FlatPosition(ReadFrom(v, ino, Div(x, v.bs), strays(Div(x, v.bs))).block, v.bs, Mod(x, v.bs)))
  }

  /** Where in the fetched blocks a byte is. */
  lemma FetchedByte(v: Volume, ino: nat, strays: nat -> nat, s: seq<Byte>, first: nat, n: nat, o: nat)
    requires v.Valid() && Described(v, ino) && Fetched(v, ino, strays, s, first, n) && o < n * v.bs
    requires var b := Div(first * v.bs + o, v.bs); ReadFrom(v, ino, b, strays(b)).From?
    ensures o < |s| && s[o] == SourceByte(v, ino, strays, first * v.bs + o)
  {
    hide ReadFrom;
    var k := Div(o, v.bs);
    if k >= n {
      MulMonotone(n, k, v.bs);
    }
    MulMonotone(k + 1, n, v.bs);
    Distribute(first, k, v.bs);
    Distribute(k, 1, v.bs);
    DivIs(first * v.bs + o, v.bs, first + k);
    assert FetchedOne(v, ino, strays, s, first, k);
    assert BlockIn(v, s, k)[Mod(o, v.bs)] == s[o];
  }

  /** Every byte of a read that fits is in a block that is fetched, and reached if the read's end is. */
  lemma FetchedBlock(v: Volume, pos: nat, count: nat, i: nat)
    requires v.Valid() && Fits(v, pos, count) && Reaches(v, pos + count) && i < count
    ensures var b := Div(pos + i, v.bs);
            Div(pos, v.bs) <= b < Div(pos, v.bs) + Div(count, v.bs) + 1 && Supported(v, b)
  {
    hide Supported, Fits;
    var first, n, b := Div(pos, v.bs), Div(count, v.bs) + 1, Div(pos + i, v.bs);
    FitsExactly(v, pos, count);
    ReachesBelow(v, pos + count, pos + i);
    DivMonotone(pos, pos + i, v.bs);
    Distribute(first, n, v.bs);
    if b >= first + n {
      MulMonotone(first + n, b, v.bs);
    }
  }

  lemma SourceIs(v: Volume, ino: nat, strays: nat -> nat, pos: nat, count: nat, i: nat)
    requires v.Valid() && Described(v, ino) && Fits(v, pos, count) && Reaches(v, pos + count) && i < count
    requires !Misses(v, strays, Div(pos, v.bs), Div(count, v.bs) + 1)
    ensures var b := Div(pos + i, v.bs); ReadFrom(v, ino, b, strays(b)).From?
  {
    FetchedBlock(v, pos, count, i);
  }

  /** What ext2_read_file delivers: a read outside a buffer, or bytes. */
  datatype Delivery = Overrun | Delivered(data: seq<Byte>)

  ghost function ReadOutcome(v: Volume, ino: nat, strays: nat -> nat, pos: nat, count: nat): (d: Delivery)
    requires v.Valid() && Described(v, ino) && Reaches(v, pos + count)
    ensures d.Delivered? ==> |d.data| == count
  {
    if Misses(v, strays, Div(pos, v.bs), Div(count, v.bs) + 1) || !Fits(v, pos, count) then Overrun
    else
      Delivered(seq<Byte>(count, i requires 0 <= i < count =>
        SourceIs(v, ino, strays, pos, count, i); SourceByte(v, ino, strays, pos + i)))
  }

  /** A read that fits delivers the file's bytes when the variable is right at every indirect block. */
  lemma AimedRead(v: Volume, ino: nat, strays: nat -> nat, pos: nat, count: nat)
    requires v.Valid() && Described(v, ino) && Reaches(v, pos + count) && Fits(v, pos, count)
    requires Aimed(v, strays, Div(pos, v.bs), Div(count, v.bs) + 1)
    ensures ReadOutcome(v, ino, strays, pos, count) == Delivered(FileBytes(v, ino, pos, count))
  {
    hide Fits, Reaches, ReadFrom, SourceByte, FileByte, Supported;
    AimedHits(v, strays, Div(pos, v.bs), Div(count, v.bs) + 1);
    var d := ReadOutcome(v, ino, strays, pos, count);
    forall i | 0 <= i < count ensures d.data[i] == FileBytes(v, ino, pos, count)[i] {
      FetchedBlock(v, pos, count, i);
      AimedByte(v, ino, strays, pos + i);
    }
  }

  lemma AimedByte(v: Volume, ino: nat, strays: nat -> nat, x: nat)
    requires v.Valid() && Described(v, ino) && Supported(v, Div(x, v.bs))
    requires var b := Div(x, v.bs); DIRECT <= b < v.bs / 4 ==> strays(b) == b
    ensures var b := Div(x, v.bs);
            ReadFrom(v, ino, b, strays(b)).From? && SourceByte(v, ino, strays, x) == FileByte(v, ino, x)
  {
    hide Volume.Block, Volume.Flat, InodeBytes, Div, Mod, FlatPosition;
  }

  lemma AimedHits(v: Volume, strays: nat -> nat, first: nat, n: nat)
    requires Aimed(v, strays, first, n)
    ensures !Misses(v, strays, first, n)
  {
  }

  /** A read is right for every value of the uninitialised variable. */
  ghost predicate AlwaysRight(v: Volume, ino: nat, pos: nat, count: nat)
    requires v.Valid() && Described(v, ino) && Reaches(v, pos + count)
  {
    forall strays: nat -> nat ::
      ReadOutcome(v, ino, strays, pos, count) == Delivered(FileBytes(v, ino, pos, count))
  }

  /** The exact condition under which ext2_read_file can be relied on: it fits, and fetches no block
      through the indirect block. */
  lemma RightReads(v: Volume, ino: nat, pos: nat, count: nat)
    requires v.Valid() && Described(v, ino) && Reaches(v, pos + count)
    ensures AlwaysRight(v, ino, pos, count) <==>
            NoIndirect(v, Div(pos, v.bs), Div(count, v.bs) + 1) && Fits(v, pos, count)
  {
    hide FileBytes, Fits, Reaches;
    var first, n := Div(pos, v.bs), Div(count, v.bs) + 1;
    if NoIndirect(v, first, n) && Fits(v, pos, count) {
      forall strays: nat -> nat
        ensures ReadOutcome(v, ino, strays, pos, count) == Delivered(FileBytes(v, ino, pos, count))
      {
        AlwaysAimed(v, first, n);
        AimedRead(v, ino, strays, pos, count);
      }
    } else {
      var none: nat -> nat := b => 0;
      if !NoIndirect(v, first, n) {
        NoneMisses(v, none, first, n);
      }
      assert ReadOutcome(v, ino, none, pos, count) == Overrun;
    }
  }

  lemma NoneMisses(v: Volume, none: nat -> nat, first: nat, n: nat)
    requires !NoIndirect(v, first, n) && forall b: nat :: none(b) == 0
    ensures Misses(v, none, first, n)
  {
    var b := if first < DIRECT then DIRECT else first;
    assert Missed(v, none(b));
  }
}
