/** The physical page bitmap: next-fit allocation that wraps around, and release. */
module PageMap {
  import opened Bitmap
  import opened Numbers
  import opened Wrappers

  datatype FreeOutcome = Freed | OutOfBounds | AlreadyFree

  /** The first byte that is not full among `left` bytes from `i` on, cyclically. */
  function NextFit(m: seq<Octet>, i: nat, left: nat): (j: Option<nat>)
    requires i < |m|
    ensures j.Some? ==> j.value < |m| && m[j.value] != 0xFF
    decreases left
  {
    if left == 0 then None
    else if m[i] != 0xFF then Some(i)
    else NextFit(m, Succ(i, |m|), left - 1)
  }

  /** Steps from byte `i` to byte `k`, going up and around. */
  function Ahead(i: nat, k: nat, n: nat): int { if k >= i then k - i else k - i + n }

  /** A lap over `left` bytes misses none of them, wherever it begins. */
  lemma {:induction false} NextFitComplete(m: seq<Octet>, i: nat, left: nat)
    requires i < |m| && left <= |m|
    ensures NextFit(m, i, left).None? <==> forall k :: 0 <= k < |m| && Ahead(i, k, |m|) < left ==> m[k] == 0xFF
    ensures var j := NextFit(m, i, left);
      j.Some? ==> forall k :: 0 <= k < |m| && Ahead(i, k, |m|) < Ahead(i, j.value, |m|) ==> m[k] == 0xFF
    decreases left
  {
    if left > 0 && m[i] == 0xFF { NextFitComplete(m, Succ(i, |m|), left - 1); }
  }

  /** Allocation fails only when every page is taken. */
  lemma OutOfMemoryExactly(m: seq<Octet>, i: nat)
    requires i < |m|
    ensures NextFit(m, i, |m|).None? <==> forall u :: 0 <= u < 8 * |m| ==> Taken(m, u)
  {
    NextFitComplete(m, i, |m|);
    if NextFit(m, i, |m|).None? {
      forall u | 0 <= u < 8 * |m|
        ensures Taken(m, u)
      {
        assert m[u / 8] == 0xFF;
        FullByte(m[u / 8]);
      }
    } else {
      var j := NextFit(m, i, |m|).value;
      var b := ClearBitOf(m[j]);
      BitIndex(j, b);
      assert !Taken(m, 8 * j + b);
    }
  }

  lemma ClearBitOf(x: Octet) returns (b: nat)
    requires x != 0xFF
    ensures b < 8 && !Bit(x, b)
  {
    FullByte(x);
    b :| b < 8 && !Bit(x, b);
  }

  class PageMap {
    const bitmap: array<Octet>
    var index: nat

    ghost predicate Valid()
      reads this
    {
      index < bitmap.Length
    }

    constructor (bytes: nat)
      requires bytes > 0
      ensures Valid() && bitmap.Length == bytes && fresh(bitmap)
      ensures forall i :: 0 <= i < bytes ==> bitmap[i] == 0xFF
    {
      bitmap := new Octet[bytes](_ => 0xFF);
      index := 0;
    }

    /** A page that was free and is now taken; None is the code's out-of-memory panic. */
    method AllocPage() returns (page: Option<nat>)
      requires Valid()
      modifies bitmap, this`index
      ensures Valid()
      ensures page.None? <==> forall u :: 0 <= u < 8 * bitmap.Length ==> Taken(old(bitmap[..]), u)
      ensures page.None? ==> bitmap[..] == old(bitmap[..])
      ensures page.Some? ==> page.value < 8 * bitmap.Length && !Taken(old(bitmap[..]), page.value)
                             && bitmap[..] == SetBit(old(bitmap[..]), page.value)
      ensures page.Some? ==> index < bitmap.Length && page.value / 8 == index
                             && forall u :: 8 * index <= u < page.value ==> Taken(old(bitmap[..]), u)
      ensures page.Some? ==> var n := bitmap.Length;
        forall k :: 0 <= k < n && Ahead(old(index), k, n) < Ahead(old(index), index, n) ==> old(bitmap[k]) == 0xFF
    {
      hide Bit, Mask;
      ghost var m := bitmap[..];
      OutOfMemoryExactly(m, index);
      NextFitComplete(m, index, |m|);
      var count := 0;
      while count < bitmap.Length && bitmap[index] == 0xFF
        invariant count <= bitmap.Length && index < bitmap.Length && bitmap[..] == m
        invariant NextFit(m, old(index), |m|) == NextFit(m, index, |m| - count)
      {
        count := count + 1;
        index := index + 1;
        if index >= bitmap.Length {
          index := 0;
        }
      }
      if bitmap[index] == 0xFF {
        return None;
      }
      var b := FirstClear(bitmap[index]);
      BitIndex(index, b);
      bitmap[index] := bitmap[index] | Mask(b);
      return Some(8 * index + b);
    }

    /** Give a page back; the two panics of the code are outcomes. */
    method FreePage(page: nat) returns (r: FreeOutcome)
      requires Valid()
      modifies bitmap
      ensures if page >= 8 * bitmap.Length then r == OutOfBounds && bitmap[..] == old(bitmap[..])
              else if !Taken(old(bitmap[..]), page) then r == AlreadyFree && bitmap[..] == old(bitmap[..])
              else r == Freed && bitmap[..] == ClearBit(old(bitmap[..]), page)
    {
      hide Bit, Mask;
      var i, b := page / 8, page % 8;
      if i >= bitmap.Length {
        return OutOfBounds;
      }
      if !Bit(bitmap[i], b) {
        return AlreadyFree;
      }
      bitmap[i] := bitmap[i] & (0xFF ^ Mask(b));
      return Freed;
    }
  }
}
