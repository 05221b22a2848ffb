/** The physical frame allocator (kernel/kernel/pmm.c): one bit per 4 KiB frame, set when in use. */
module FrameAllocator {
  import Bitmap

  function SetBits(bits: seq<bool>): set<nat> {
    set i | 0 <= i < |bits| && bits[i]
  }

  class Pmm {
    const bitmap: array<bv8>

    constructor (bitmap: array<bv8>)
      ensures this.bitmap == bitmap
    {
      this.bitmap := bitmap;
    }

    /** The bitmap is padded to whole 64-bit words and its bit count fits 32 bits. */
    ghost predicate Valid() {
      Bitmap.Searchable(bitmap.Length, 8 * bitmap.Length)
    }

    ghost function Frames(): nat {
      8 * bitmap.Length
    }

    /** The frames in use. */
    ghost function Used(): (used: set<nat>)
      reads bitmap
      ensures forall f :: f in used ==> f < Frames()
    {
      SetBits(Bitmap.Bits(bitmap[..]))
    }

    /** Takes the lowest free frame; `ok` is false where the kernel panics for lack of memory. */
    method Alloc() returns (ok: bool, frame: nat)
      requires Valid()
      modifies bitmap
      ensures ok <==> exists f: nat :: f < Frames() && f !in old(Used())
      ensures ok ==> frame < Frames() && frame !in old(Used()) && forall f: nat :: f < frame ==> f in old(Used())
      ensures Used() == if ok then old(Used()) + {frame} else old(Used())
    {
      hide Bitmap.Bit;
      ghost var bits := Bitmap.Bits(bitmap[..]);
      assert forall f: nat :: f < Frames() ==> (f in Used() <==> bits[f]);
      frame := Bitmap.Find(bitmap, 8 * bitmap.Length);
      ok := frame != Bitmap.UINT32_MAX;
      if ok {
        Bitmap.Set(bitmap, frame);
      }
    }

    /** Returns a frame; freeing a frame that is not in use is the kernel's double-free panic. */
    method Free(frame: nat)
      requires Valid() && frame in Used()
      modifies bitmap
      ensures Used() == old(Used()) - {frame}
    {
      hide Bitmap.Bit;
      Bitmap.Clear(bitmap, frame);
    }

    /** Counting the clear bits gives exactly the frames not in use. */
    method FreePageCount() returns (count: nat)
      requires Valid()
      ensures count == Frames() - |Used()|
    {
      hide Bitmap.Bit;
      count := 0;
      ghost var bits := Bitmap.Bits(bitmap[..]);
      for i := 0 to 8 * bitmap.Length
        invariant count == i - |SetBits(bits[..i])|
      {
        var used := Bitmap.Test(bitmap, i);
        SetBitsStep(bits, i);
        if !used {
          count := count + 1;
        }
      }
      assert bits[..|bits|] == bits;
    }
  }

  lemma SetBitsStep(bits: seq<bool>, i: nat)
    requires i < |bits|
    ensures SetBits(bits[..i + 1]) == SetBits(bits[..i]) + if bits[i] then {i} else {}
    ensures |SetBits(bits[..i + 1])| == |SetBits(bits[..i])| + if bits[i] then 1 else 0
  {
  }
}
