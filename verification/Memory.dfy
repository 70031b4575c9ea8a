/** The flat byte memory that the heap lives in, and the two headers the heap
    keeps in it.

    Words are 32 bits, little endian. A header is six words (mm/heap.c:121-144),
    so both kinds take 24 bytes on i686. */
module Memory {

  type Byte = x: int | 0 <= x < 256
  type Mem = seq<Byte>

  const WORD_LIMIT := 0x1_0000_0000
  const HEADER := 24

  /** `[a, a + n)` lies inside memory. */
  predicate InMem(m: Mem, a: int, n: nat) {
    0 <= a && a + n <= |m|
  }

  /** Nothing changed in `[lo, hi)`. */
  ghost predicate Same(m: Mem, m': Mem, lo: int, hi: int) {
    |m| == |m'| && forall i :: 0 <= i < |m| && lo <= i < hi ==> m'[i] == m[i]
  }

  function Word(m: Mem, a: int): (w: int)
    requires InMem(m, a, 4)
    ensures 0 <= w < WORD_LIMIT
  {
    m[a] as int + 0x100 * m[a + 1] as int + 0x1_0000 * m[a + 2] as int + 0x100_0000 * m[a + 3] as int
  }

  /** A store of one word: it reads back, every byte outside its four stays,
      and so does every word that does not overlap it. */
  function PutWord(m: Mem, a: int, v: int): (r: Mem)
    requires InMem(m, a, 4) && 0 <= v < WORD_LIMIT
    ensures |r| == |m| && Word(r, a) == v
    ensures forall i :: 0 <= i < |m| && !(a <= i < a + 4) ==> r[i] == m[i]
    ensures forall b :: InMem(m, b, 4) && (b + 4 <= a || a + 4 <= b) ==> Word(r, b) == Word(m, b)
  {
    var y := v / 0x100;
    var z := y / 0x100;
    m[a := v % 0x100][a + 1 := y % 0x100][a + 2 := z % 0x100][a + 3 := z / 0x100]
  }

  lemma WordDigits(m: Mem, a: int)
    requires InMem(m, a, 4)
    ensures m[a] == Word(m, a) % 0x100 && m[a + 1] == Word(m, a) / 0x100 % 0x100
    ensures m[a + 2] == Word(m, a) / 0x1_0000 % 0x100 && m[a + 3] == Word(m, a) / 0x100_0000
  {
    var x, y, z := m[a] as int, m[a + 1] as int, m[a + 2] as int;
    var zw := z + 0x100 * m[a + 3] as int;
    var yzw := y + 0x100 * zw;
    assert Word(m, a) == x + 0x100 * yzw;
    assert Word(m, a) / 0x100 == yzw;
    assert Word(m, a) / 0x1_0000 == zw;
  }

  /** A word depends on its own four bytes only, and determines them. */
  lemma WordSame(m: Mem, m': Mem, a: int, b: int)
    requires InMem(m, a, 4) && InMem(m', b, 4)
    ensures Word(m, a) == Word(m', b) <==> m[a..a + 4] == m'[b..b + 4]
  {
    var s, t := m[a..a + 4], m'[b..b + 4];
    assert forall i :: 0 <= i < 4 ==> s[i] == m[a + i] && t[i] == m'[b + i];
    WordDigits(m, a);
    WordDigits(m', b);
  }

  /** `struct liballoc_major`, in field order. */
  datatype Major = Major(prev: int, next: int, pages: int, size: int, usage: int, first: int)

  /** `struct liballoc_minor`, in field order. */
  datatype Minor = Minor(prev: int, next: int, block: int, magic: int, size: int, req: int)

  const PREV := 0
  const NEXT := 4

  const MAJ_PAGES := 8
  const MAJ_SIZE := 12
  const MAJ_USAGE := 16
  const MAJ_FIRST := 20

  const MIN_BLOCK := 8
  const MIN_MAGIC := 12
  const MIN_SIZE := 16
  const MIN_REQ := 20

  function MajorAt(m: Mem, a: int): Major
    requires InMem(m, a, HEADER)
  {
    Major(Word(m, a + PREV), Word(m, a + NEXT), Word(m, a + MAJ_PAGES),
          Word(m, a + MAJ_SIZE), Word(m, a + MAJ_USAGE), Word(m, a + MAJ_FIRST))
  }

  function MinorAt(m: Mem, a: int): Minor
    requires InMem(m, a, HEADER)
  {
    Minor(Word(m, a + PREV), Word(m, a + NEXT), Word(m, a + MIN_BLOCK),
          Word(m, a + MIN_MAGIC), Word(m, a + MIN_SIZE), Word(m, a + MIN_REQ))
  }

  /** Headers whose 24 bytes stay the same read the same. */
  lemma HeaderFrame(m: Mem, m': Mem, a: int)
    requires InMem(m, a, HEADER) && Same(m, m', a, a + HEADER)
    ensures MajorAt(m', a) == MajorAt(m, a) && MinorAt(m', a) == MinorAt(m, a)
  {
  }
}
