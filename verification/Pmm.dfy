/** Single-bit reads and writes on machine words, given on binary digits. */
module Bits {

  /** w & (1 << k) == 0 */
  predicate BitClear(w: nat, k: nat)
  {
    if k == 0 then w % 2 == 0 else BitClear(w / 2, k - 1)
  }

  /** w | (1 << k) */
  function SetBit(w: nat, k: nat): nat
  {
    if k == 0 then w / 2 * 2 + 1 else SetBit(w / 2, k - 1) * 2 + w % 2
  }

  /** w & ~(1 << k) */
  function ClearBit(w: nat, k: nat): nat
  {
    if k == 0 then w / 2 * 2 else ClearBit(w / 2, k - 1) * 2 + w % 2
  }

  /** Writing one bit leaves the others as they were. */
  lemma {:induction false} SetOneBit(w: nat, i: nat, j: nat)
    ensures BitClear(SetBit(w, i), j) <==> i != j && BitClear(w, j)
  {
    if i > 0 && j > 0 {
      SetOneBit(w / 2, i - 1, j - 1);
    }
  }

  lemma {:induction false} ClearOneBit(w: nat, i: nat, j: nat)
    ensures BitClear(ClearBit(w, i), j) <==> i == j || BitClear(w, j)
  {
    if i > 0 && j > 0 {
      ClearOneBit(w / 2, i - 1, j - 1);
    }
  }
}

/** The physical memory manager: a first-fit frame allocator over a bitmap of
    64-bit words, one bit per 4 KiB frame, 0 for free and 1 for used.
    Frames are named by number; the physical address is the number times 4096. */
module Pmm {
  import opened Common
  import opened Bits

  const MAX_NUM_FRAMES: nat := 524288
  const ENTRY_BITS: nat := 64
  const BITMAP_SIZE: nat := 8192

  predicate FrameClear(words: seq<nat>, f: nat)
    requires |words| == BITMAP_SIZE && f < MAX_NUM_FRAMES
  {
    BitClear(words[f / ENTRY_BITS], f % ENTRY_BITS)
  }

  /** The abstract value of a bitmap: the set of free frames. */
  ghost function FreeSet(words: seq<nat>): set<nat>
    requires |words| == BITMAP_SIZE
  {
    set f: nat | f < MAX_NUM_FRAMES && FrameClear(words, f)
  }

  lemma MarkUsed(words: seq<nat>, f: nat)
    requires |words| == BITMAP_SIZE && f < MAX_NUM_FRAMES
    ensures FreeSet(words[f / ENTRY_BITS := SetBit(words[f / ENTRY_BITS], f % ENTRY_BITS)])
         == FreeSet(words) - {f}
  {
    var words' := words[f / ENTRY_BITS := SetBit(words[f / ENTRY_BITS], f % ENTRY_BITS)];
    forall g: nat | g < MAX_NUM_FRAMES
      ensures FrameClear(words', g) <==> g != f && FrameClear(words, g)
    {
      SetOneBit(words[f / ENTRY_BITS], f % ENTRY_BITS, g % ENTRY_BITS);
    }
  }

  lemma MarkFree(words: seq<nat>, f: nat)
    requires |words| == BITMAP_SIZE && f < MAX_NUM_FRAMES
    ensures FreeSet(words[f / ENTRY_BITS := ClearBit(words[f / ENTRY_BITS], f % ENTRY_BITS)])
         == FreeSet(words) + {f}
  {
    var words' := words[f / ENTRY_BITS := ClearBit(words[f / ENTRY_BITS], f % ENTRY_BITS)];
    forall g: nat | g < MAX_NUM_FRAMES
      ensures FrameClear(words', g) <==> g == f || FrameClear(words, g)
    {
      ClearOneBit(words[f / ENTRY_BITS], f % ENTRY_BITS, g % ENTRY_BITS);
    }
  }

  /** A 64-bit counter minus the size of the set it counts. */
  ghost function Difference(counter: int, frames: set<nat>): int
  {
    (counter - |frames|) % WORD
  }

  lemma Wraps(x: int, y: int)
    ensures (x % WORD - y) % WORD == (x - y) % WORD
    ensures (x - y) % WORD != (x - y + 1) % WORD
    ensures (x - y) % WORD != (x - y - 1) % WORD
  {
  }

  lemma DifferenceOnUse(counter: nat, frames: set<nat>, f: nat)
    ensures Difference((counter - 1) % WORD, frames - {f}) == Difference(counter, frames)
       <==> f in frames
  {
    Wraps(counter - 1, |frames - {f}|);
    assert |frames - {f}| == if f in frames then |frames| - 1 else |frames| by {
      assert f !in frames ==> frames - {f} == frames;
    }
  }

  lemma DifferenceOnFree(counter: nat, frames: set<nat>, f: nat)
    ensures Difference((counter + 1) % WORD, frames + {f}) == Difference(counter, frames)
       <==> f !in frames
  {
    Wraps(counter + 1, |frames + {f}|);
    assert |frames + {f}| == if f in frames then |frames| else |frames| + 1 by {
      assert f in frames ==> frames + {f} == frames;
    }
  }

  lemma SameCounter(c1: nat, c2: nat, frames: set<nat>)
    requires c1 < WORD && c2 < WORD && Difference(c1, frames) == Difference(c2, frames)
    ensures c1 == c2
  {
  }

  /** The allocator as it stands after boot. The counter is a 64-bit word and
      wraps; boot leaves it larger than the number of clear bits, so what runs
      keep is the difference between the two. */
  class FrameAllocator {
    const bitmap: array<nat>
    var start: nat
    var end: nat
    var freeFrames: nat

    ghost predicate Valid()
      reads this
    {
      bitmap.Length == BITMAP_SIZE && end <= MAX_NUM_FRAMES && freeFrames < WORD
    }

    ghost function Free(): set<nat>
      requires Valid()
      reads this, bitmap
    {
      FreeSet(bitmap[..])
    }

    /** Counter minus number of clear bits, as a 64-bit word. */
    ghost function Drift(): int
      requires Valid()
      reads this, bitmap
    {
      Difference(freeFrames, Free())
    }

    constructor AfterBoot(words: array<nat>, start: nat, end: nat, freeFrames: nat)
      requires words.Length == BITMAP_SIZE && end <= MAX_NUM_FRAMES && freeFrames < WORD
      ensures Valid() && bitmap == words && this.freeFrames == freeFrames
      ensures this.start == start && this.end == end
    {
      bitmap := words;
      this.start, this.end, this.freeFrames := start, end, freeFrames;
    }

    method IsFrameFree(frame: nat) returns (free: bool)
      requires Valid() && frame < MAX_NUM_FRAMES
      ensures free <==> frame in Free()
    {
      free := BitClear(bitmap[frame / ENTRY_BITS], frame % ENTRY_BITS);
      assert free == FrameClear(bitmap[..], frame);
    }

    method SetFrameUsed(frame: nat)
      requires Valid() && frame < MAX_NUM_FRAMES
      modifies this`freeFrames, bitmap
      ensures Valid() && Free() == old(Free()) - {frame}
      ensures Drift() == old(Drift()) <==> frame in old(Free())
      ensures freeFrames == (old(freeFrames) - 1) % WORD
    {
      MarkUsed(bitmap[..], frame);
      ghost var words := bitmap[..];
      bitmap[frame / ENTRY_BITS] := SetBit(bitmap[frame / ENTRY_BITS], frame % ENTRY_BITS);
      assert bitmap[..] == words[frame / ENTRY_BITS := SetBit(words[frame / ENTRY_BITS], frame % ENTRY_BITS)];
      freeFrames := (freeFrames - 1) % WORD;
      DifferenceOnUse(old(freeFrames), old(Free()), frame);
    }

    method SetFrameFree(frame: nat)
      requires Valid() && frame < MAX_NUM_FRAMES
      modifies this`freeFrames, bitmap
      ensures Valid() && Free() == old(Free()) + {frame}
      ensures Drift() == old(Drift()) <==> frame !in old(Free())
      ensures freeFrames == (old(freeFrames) + 1) % WORD
    {
      MarkFree(bitmap[..], frame);
      ghost var words := bitmap[..];
      bitmap[frame / ENTRY_BITS] := ClearBit(bitmap[frame / ENTRY_BITS], frame % ENTRY_BITS);
      assert bitmap[..] == words[frame / ENTRY_BITS := ClearBit(words[frame / ENTRY_BITS], frame % ENTRY_BITS)];
      freeFrames := (freeFrames + 1) % WORD;
      DifferenceOnFree(old(freeFrames), old(Free()), frame);
    }

    /** First fit from the cursor on. `None` is the out-of-memory panic: it
        happens exactly when no frame between the cursor and the end of the
        region is free, whatever is free below the cursor. */
    method AllocFrame() returns (r: Option<nat>)
      requires Valid()
      modifies this`start, this`freeFrames, bitmap
      ensures Valid() && Drift() == old(Drift())
      ensures r.Some? <==> exists f :: old(start) <= f < end && f in old(Free())
      ensures r.Some? ==> old(start) <= r.value < end && r.value in old(Free())
      ensures r.Some? ==> forall f :: old(start) <= f < r.value ==> f !in old(Free())
      ensures r.Some? ==> Free() == old(Free()) - {r.value} && start == r.value + 1
      ensures r.None? ==> Free() == old(Free()) && start == old(start)
    {
      var frame := start;
      while frame < end
        invariant Valid() && start <= frame
        invariant forall f :: start <= f < frame && f < end ==> f !in Free()
        invariant unchanged(this) && unchanged(bitmap)
      {
        var free := IsFrameFree(frame);
        if free {
          SetFrameUsed(frame);
          start := frame + 1;
          return Some(frame);
        }
        frame := frame + 1;
      }
      return None;
    }

    /** Every freed frame becomes free; the counter stays in step exactly when
        the frame was in use. */
    method FreeFrame(frame: nat)
      requires Valid() && frame < MAX_NUM_FRAMES
      modifies this`freeFrames, bitmap
      ensures Valid() && Free() == old(Free()) + {frame}
      ensures Drift() == old(Drift()) <==> frame !in old(Free())
    {
      SetFrameFree(frame);
    }

    /** Any sequence of calls: the frames handed out are strictly increasing, so
        none is handed out twice, freed in between or not, and there are never
        more of them than lay between cursor and end. */
    method Serve(requests: seq<FrameRequest>) returns (handed: seq<nat>)
      requires Valid() && forall r | r in requests && r.PutFrame? :: r.frame < MAX_NUM_FRAMES
      modifies this`start, this`freeFrames, bitmap
      ensures Valid() && end == old(end)
      ensures forall i, j | 0 <= i < j < |handed| :: handed[i] < handed[j]
      ensures forall i | 0 <= i < |handed| :: old(start) <= handed[i] < end
      ensures |handed| <= start - old(start) && (handed != [] ==> start <= end)
    {
      handed := [];
      for n := 0 to |requests|
        invariant Valid() && end == old(end) && |handed| <= start - old(start) && (handed != [] ==> start <= end)
        invariant forall i, j | 0 <= i < j < |handed| :: handed[i] < handed[j]
        invariant forall i | 0 <= i < |handed| :: old(start) <= handed[i] < start
      {
        match requests[n]
        case GetFrame =>
          var r := AllocFrame();
          if r.Some? {
            handed := handed + [r.value];
          }
        case PutFrame(frame) =>
          assert requests[n] in requests;
          FreeFrame(frame);
      }
    }
  }

  /** A client takes a frame, or releases one, whosever it is. */
  datatype FrameRequest = GetFrame | PutFrame(frame: nat)
}
