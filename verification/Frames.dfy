/** mm/frame.c: the bitmap of physical frames, packed 32 to a word. */
module Frames {
  import opened WordBits
  import opened FrameModel

  const NO_FRAME := 0xFFFF_FFFF
  const ALL_FRAMES := 0x10_0000  // of the 32-bit address space
  const MAX_FRAMES := 0x8_0000   // the search counts addresses in an int, so it reaches 2 GiB

  /** The frames whose bits are set. */
  ghost function UsedOf(w: seq<bv32>): set<nat> {
    set f: nat | f < 32 * |w| && Bit(w[f / 32], f % 32)
  }

  /** Setting or clearing the bit of a frame, in its word, adds or removes that frame alone. */
  lemma OneBit(w: seq<bv32>, f: nat)
    requires f < 32 * |w|
    ensures UsedOf(w[f / 32 := WithBit(w[f / 32], f % 32)]) == UsedOf(w) + {f}
    ensures UsedOf(w[f / 32 := WithoutBit(w[f / 32], f % 32)]) == UsedOf(w) - {f}
  {
    hide Bit, WithBit, WithoutBit;
    var i, o := f / 32, f % 32;
    var set', clear' := w[i := WithBit(w[i], o)], w[i := WithoutBit(w[i], o)];
    forall g: nat | g < 32 * |w|
      ensures Bit(set'[g / 32], g % 32) <==> g == f || Bit(w[g / 32], g % 32)
      ensures Bit(clear'[g / 32], g % 32) <==> g != f && Bit(w[g / 32], g % 32)
    {
      if g / 32 == i {
        BitAfter(w[i], o, g % 32);
      }
    }
  }

  lemma UsedAt(w: seq<bv32>, i: nat, o: nat)
    requires i < |w| && o < 32
    ensures 32 * i + o in UsedOf(w) <==> Bit(w[i], o)
  {
    hide Bit;
    assert (32 * i + o) / 32 == i && (32 * i + o) % 32 == o;
  }

  /** The frames set_nframes clears the bits of. */
  function Cleared(n: nat): (c: nat)
    ensures c <= 32 * (n / 16)
  {
    n / 32 * 8
  }

  ghost function Leftover(n: nat, memory: seq<bv32>): set<nat> {
    set g | g in UsedOf(memory) && Cleared(n) <= g
  }

  /** What the search sees: the used frames, and behind the bitmap whatever `beyond` says memory holds. */
  ghost function Seen(used: set<nat>, bits: nat, beyond: nat -> bool, limit: nat): set<nat> {
    used + set f: nat | bits <= f < limit && beyond(f)
  }

  class Bitmap {
    const nframes: nat
    const frames: array<bv32>

    ghost predicate Valid() {
      nframes <= MAX_FRAMES && 32 * frames.Length == Bits(nframes)
    }

    ghost function Used(): set<nat>
      reads frames
    {
      UsedOf(frames[..])
    }

    /** set_nframes. The bitmap lies where the words of `memory` were, of which memset clears the first
        n / 32 bytes; byte k holds the bits of frames 8k to 8k + 7. So it starts clear if and only if memory held
        zeros behind them. */
    constructor (n: nat, memory: seq<bv32>)
      requires n <= MAX_FRAMES && |memory| == n / 16
      ensures Valid() && nframes == n && fresh(frames) && Used() == Leftover(n, memory)
      ensures forall g: nat :: g in Used() <==> g in UsedOf(memory) && 8 * (n / 32) <= g
      ensures Used() == {} <==> forall g :: g in UsedOf(memory) ==> g < Cleared(n)
    {
      nframes := n;
      frames := new bv32[n / 16](i requires 0 <= i < |memory| => memory[i]);
      new;
      hide Bit, WithoutBit;
      var f := 0;
      while f < Cleared(n)
        invariant f <= Cleared(n) && Used() == set g | g in UsedOf(memory) && f <= g
        modifies frames
      {
        OneBit(frames[..], f);
        ghost var w := frames[..];
        frames[f / 32] := WithoutBit(frames[f / 32], f % 32);
        assert frames[..] == w[f / 32 := WithoutBit(w[f / 32], f % 32)];
        f := f + 1;
      }
      assert Used() == Leftover(n, memory);
      assert forall g :: g in UsedOf(memory) && Cleared(n) <= g ==> g in Used();
    }

    method SetFrame(a: nat)
      requires Valid() && a / PAGE < Bits(nframes)
      modifies frames
      ensures Used() == old(Used()) + {a / PAGE}
    {
      var f := a / PAGE;
      var i, o := f / 32, f % 32;
      OneBit(frames[..], f);
      ghost var w := frames[..];
      frames[i] := WithBit(frames[i], o);
      assert frames[..] == w[i := WithBit(w[i], o)];
    }

    method ClearFrame(a: nat)
      requires Valid() && a / PAGE < Bits(nframes)
      modifies frames
      ensures Used() == old(Used()) - {a / PAGE}
    {
      var f := a / PAGE;
      var i, o := f / 32, f % 32;
      OneBit(frames[..], f);
      ghost var w := frames[..];
      frames[i] := WithoutBit(frames[i], o);
      assert frames[..] == w[i := WithoutBit(w[i], o)];
    }

    method TestFrame(a: nat) returns (b: bool)
      requires Valid() && a / PAGE < Bits(nframes)
      ensures b <==> a / PAGE in Used()
    {
      var f := a / PAGE;
      var i, o := f / 32, f % 32;
      b := Bit(frames[i], o);
    }

    /** test_frame without a check of bounds: `beyond` is what memory behind the bitmap holds. */
    method Peek(a: nat, beyond: nat -> bool, ghost limit: nat) returns (b: bool)
      requires Valid() && a / PAGE < limit
      ensures b <==> a / PAGE in Seen(Used(), Bits(nframes), beyond, limit)
    {
      hide UsedOf;
      UsedInside(frames[..]);
      if a / PAGE < 32 * frames.Length {
        b := TestFrame(a);
      } else {
        b := beyond(a / PAGE);
      }
    }

    /** first_n_frames: the lowest run of `n` clear frames that starts below nframes. The search does not
        stop at the end of the bitmap; no address wraps. */
    method FirstNFrames(n: nat, beyond: nat -> bool) returns (r: nat)
      requires Valid() && nframes + n <= ALL_FRAMES
      ensures var s := LowestRun(Seen(Used(), Bits(nframes), beyond, nframes + n), n, 0, nframes);
              r == if s == nframes then NO_FRAME else s
      ensures nframes + n <= Bits(nframes) ==> Seen(Used(), Bits(nframes), beyond, nframes + n) == Used()
    {
      hide LowestRun, Bits, UsedOf, Seen;
      ghost var used := Seen(Used(), Bits(nframes), beyond, nframes + n);
      SeenInside(Used(), Bits(nframes), beyond, nframes + n);
      var i := 0;
      while i < nframes * PAGE
        invariant i % PAGE == 0 && i / PAGE <= nframes
        invariant forall t: nat :: t < i / PAGE ==> !ClearRun(used, t, n)
        decreases nframes * PAGE - i
      {
        var b := 0;
        for j := 0 to n
          invariant b == 0 <==> ClearRun(used, i / PAGE, j)
        {
          assert (i + PAGE * j) / PAGE == i / PAGE + j;
          var t := Peek(i + PAGE * j, beyond, nframes + n);
          if t {
            b := j + 1;
          } else {
            ghost var k := i / PAGE + j;
            assert k !in used;
          }
        }
        if b == 0 {
          LowestRunIs(used, n, nframes, i / PAGE);
          return i / PAGE;
        }
        i := i + PAGE;
      }
      LowestRunIs(used, n, nframes, nframes);
      r := NO_FRAME;
    }

    /** first_frame: the lowest clear frame of the whole words; `ok` is false where it panics. */
    method FirstFrame() returns (ok: bool, r: nat)
      requires Valid()
      ensures var s := LowestRun(Used(), 1, 0, Counted(nframes));
              (ok <==> s < Counted(nframes)) && (ok ==> r == s)
    {
      hide LowestRun, Bit, Full, UsedOf;
      for i := 0 to nframes / 32
        invariant forall t: nat :: t < 32 * i ==> t in Used()
      {
        FullWord(frames[i]);
        if !Full(frames[i]) {
          var j := ClearBit(frames[i]);
          BitsBelow(frames[..], i, j);
          UsedAt(frames[..], i, j);
          FirstClear(Used(), Counted(nframes), i * 0x20 + j);
          return true, i * 0x20 + j;
        }
        BitsBelow(frames[..], i, 32);
      }
      FirstClear(Used(), Counted(nframes), Counted(nframes));
      return false, 0;
    }

    /** The inner loop of first_frame: the lowest clear bit of a word that is not full. */
    static method ClearBit(w: bv32) returns (j: nat)
      requires !Full(w)
      ensures j < 32 && !Bit(w, j) && forall o: nat :: o < j ==> Bit(w, o)
    {
      hide Bit, Full;
      FullWord(w);
      j := 0;
      while Bit(w, j)
        invariant j < 32 && forall o: nat :: o < j ==> Bit(w, o)
        decreases 32 - j
      {
        j := j + 1;
      }
    }

    /** mem_used: a population count. */
    method CountUsed() returns (kb: nat)
      requires Valid()
      ensures kb == MemUsed(Used(), nframes)
    {
      hide Bit, Mask, UsedOf, Below;
      ghost var used := Used();
      var ret := 0;
      assert Below(used, 0) == {} by {
        NoneBelow(used);
      }
      for i := 0 to nframes / 32
        invariant ret == |Below(used, 32 * i)|
      {
        for j := 0 to 32
          invariant ret == |Below(used, 32 * i + j)|
        {
          BelowNext(used, 32 * i + j);
          UsedAt(frames[..], i, j);
          if Bit(frames[i], j) {
            ret := ret + 1;
          }
        }
      }
      kb := ret * 4;
    }
  }

  lemma UsedInside(w: seq<bv32>)
    ensures forall f :: f in UsedOf(w) ==> f < 32 * |w|
  {
  }

  lemma SeenInside(used: set<nat>, bits: nat, beyond: nat -> bool, limit: nat)
    ensures limit <= bits ==> Seen(used, bits, beyond, limit) == used
  {
  }

  /** The lowest bits of word `i` are set: so are their frames. */
  lemma BitsBelow(w: seq<bv32>, i: nat, j: nat)
    requires i < |w| && j <= 32 && forall o: nat :: o < j ==> Bit(w[i], o)
    ensures forall t: nat :: 32 * i <= t < 32 * i + j ==> t in UsedOf(w)
  {
    hide Bit, UsedOf;
    forall t: nat | 32 * i <= t < 32 * i + j ensures t in UsedOf(w) {
      UsedAt(w, i, t - 32 * i);
    }
  }

  lemma FirstClear(used: set<nat>, limit: nat, r: nat)
    requires r <= limit && (r < limit ==> r !in used) && forall t: nat :: t < r ==> t in used
    ensures LowestRun(used, 1, 0, limit) == r
  {
    forall t: nat | t < r ensures !ClearRun(used, t, 1) {
      assert t in used;
    }
    LowestRunIs(used, 1, limit, r);
  }

  lemma NoneBelow(used: set<nat>)
    ensures Below(used, 0) == {}
  {
  }

  lemma BelowNext(used: set<nat>, k: nat)
    ensures |Below(used, k + 1)| == |Below(used, k)| + if k in used then 1 else 0
  {
    if k in used {
      assert Below(used, k + 1) == Below(used, k) + {k};
    } else {
      assert Below(used, k + 1) == Below(used, k);
    }
  }
}
