/** Bitmaps packed into 32-bit words (lib/kernel/bitmap.c). */
module Bitmap {
  import opened Wrappers
  import opened Bytes

  type Word = bv32

  /** The word with only bit k on. */
  function Mask(k: nat): Word
    requires k < 32
  {
    (1 as bv32) << (k as bv32)
  }

  predicate Bit(w: Word, k: nat)
    requires k < 32
  {
    w & Mask(k) != 0
  }

  lemma OneBit(k: bv32)
    requires k < 32
    ensures (1 as bv32) << k != 0
  {
  }

  lemma OtherBit(j: bv32, k: bv32)
    requires j < 32 && k < 32 && j != k
    ensures ((1 as bv32) << j) & ((1 as bv32) << k) == 0
  {
  }

  lemma ShiftAmount(k: nat)
    requires k < 32
    ensures (k as bv32) as int == k
  {
  }

  lemma ShiftAmountsDiffer(j: nat, k: nat)
    requires j < 32 && k < 32 && j != k
    ensures j as bv32 != k as bv32
  {
    ShiftAmount(j);
    ShiftAmount(k);
  }

  lemma ShiftAmountSmall(k: nat)
    requires k < 32
    ensures k as bv32 < 32
  {
  }

  lemma MaskOn(k: nat)
    requires k < 32
    ensures Mask(k) != 0
  {
    ShiftAmountSmall(k);
    OneBit(k as bv32);
  }

  lemma MasksDisjoint(j: nat, k: nat)
    requires j < 32 && k < 32 && j != k
    ensures Mask(j) & Mask(k) == 0
  {
    ShiftAmountSmall(j);
    ShiftAmountSmall(k);
    ShiftAmountsDiffer(j, k);
    OtherBit(j as bv32, k as bv32);
  }

  lemma OrOn(w: Word, m: Word)
    ensures (w | m) & m == m
  {
  }

  lemma OrOff(w: Word, m: Word, n: Word)
    requires n & m == 0
    ensures (w | m) & n == w & n
  {
  }

  lemma AndOn(w: Word, m: Word)
    ensures (w & !m) & m == 0
  {
  }

  lemma AndOff(w: Word, m: Word, n: Word)
    requires n & m == 0
    ensures (w & !m) & n == w & n
  {
  }

  lemma SetBit(w: Word, k: nat)
    requires k < 32
    ensures Bit(w | Mask(k), k)
  {
    MaskOn(k);
    OrOn(w, Mask(k));
  }

  lemma SetKeepsOthers(w: Word, k: nat, j: nat)
    requires j < 32 && k < 32 && j != k
    ensures Bit(w | Mask(k), j) == Bit(w, j)
  {
    MasksDisjoint(j, k);
    OrOff(w, Mask(k), Mask(j));
  }

  lemma ClearBit(w: Word, k: nat)
    requires k < 32
    ensures !Bit(w & !Mask(k), k)
  {
    AndOn(w, Mask(k));
  }

  lemma ClearKeepsOthers(w: Word, k: nat, j: nat)
    requires j < 32 && k < 32 && j != k
    ensures Bit(w & !Mask(k), j) == Bit(w, j)
  {
    MasksDisjoint(j, k);
    AndOff(w, Mask(k), Mask(j));
  }

  // ----- bitmaps as sequences of bits

  /** Bit i of a bitmap held in words. */
  predicate BitAt(words: seq<Word>, i: nat)
    requires i < 32 * |words|
  {
    Bit(words[i / 32], i % 32)
  }

  /** Bits [start, start + cnt) of b all equal v. */
  ghost predicate All(b: seq<bool>, start: nat, cnt: nat, v: bool)
    requires start + cnt <= |b|
  {
    forall i :: start <= i < start + cnt ==> b[i] == v
  }

  /** b with bits [start, start + cnt) set to v. */
  ghost function Filled(b: seq<bool>, start: nat, cnt: nat, v: bool): (r: seq<bool>)
    requires start + cnt <= |b|
    ensures |r| == |b| && All(r, start, cnt, v)
    ensures forall i :: 0 <= i < |b| && !(start <= i < start + cnt) ==> r[i] == b[i]
  {
    seq(|b|, i requires 0 <= i < |b| => if start <= i < start + cnt then v else b[i])
  }

  /** Filling bits that were all !v and filling them back changes nothing. */
  lemma FillBack(b: seq<bool>, start: nat, cnt: nat, v: bool)
    requires start + cnt <= |b| && All(b, start, cnt, !v)
    ensures Filled(Filled(b, start, cnt, v), start, cnt, !v) == b
  {
  }

  /** i is the first place at or after start where cnt consecutive bits equal v. */
  ghost predicate FirstFit(b: seq<bool>, start: nat, cnt: nat, v: bool, i: nat)
  {
    start <= i && i + cnt <= |b| && All(b, i, cnt, v) && NoFit(b, start, i, cnt, v)
  }

  /** No cnt consecutive bits equal v from any place in [start, end). */
  ghost predicate NoFit(b: seq<bool>, start: nat, end: nat, cnt: nat, v: bool)
  {
    forall j :: start <= j < end && j + cnt <= |b| ==> !All(b, j, cnt, v)
  }

  /** Some cnt consecutive bits are false. */
  ghost predicate HasFit(b: seq<bool>, cnt: nat) { !NoFit(b, 0, |b| + 1, cnt, false) }

  lemma FirstFitFits(b: seq<bool>, cnt: nat, i: nat)
    requires FirstFit(b, 0, cnt, false, i)
    ensures HasFit(b, cnt)
  {
    assert All(b, i, cnt, false);
  }

  ghost function BitsOf(words: seq<Word>, n: nat): (b: seq<bool>)
    requires n <= 32 * |words|
    ensures |b| == n
  {
    seq(n, i requires 0 <= i < n => BitAt(words, i))
  }

  /** w' is w with bit k set to v. */
  ghost predicate BitSet(w: Word, k: nat, v: bool, w': Word)
    requires k < 32
  {
    Bit(w', k) == v && forall j :: 0 <= j < 32 && j != k ==> Bit(w', j) == Bit(w, j)
  }

  /** Changing one bit of one word changes one bit of the bitmap. */
  lemma WordUpdate(words: seq<Word>, n: nat, idx: nat, w: Word, v: bool)
    requires idx < n <= 32 * |words| && BitSet(words[idx / 32], idx % 32, v, w)
    ensures BitsOf(words[idx / 32 := w], n) == BitsOf(words, n)[idx := v]
  {
  }

  method WithBitOn(w: Word, k: nat) returns (r: Word)
    requires k < 32
    ensures BitSet(w, k, true, r)
  {
    SetBit(w, k);
    forall j | 0 <= j < 32 && j != k
      ensures Bit(w | Mask(k), j) == Bit(w, j)
    {
      SetKeepsOthers(w, k, j);
    }
    return w | Mask(k);
  }

  method WithBitOff(w: Word, k: nat) returns (r: Word)
    requires k < 32
    ensures BitSet(w, k, false, r)
  {
    ClearBit(w, k);
    forall j | 0 <= j < 32 && j != k
      ensures Bit(w & !Mask(k), j) == Bit(w, j)
    {
      ClearKeepsOthers(w, k, j);
    }
    return w & !Mask(k);
  }

  // ----- bitmaps in files

  function Number(w: Word): uint32 { w as int }

  /** The bytes that bitmap_write puts in a file. */
  function FileBytes(words: seq<Word>): (b: seq<byte>)
    ensures |b| == 4 * |words|
  {
    seq(4 * |words|, i requires 0 <= i < 4 * |words| => Bytes32(Number(words[i / 4]))[i % 4])
  }

  lemma FileBytesSlice(words: seq<Word>, k: nat)
    requires k < |words|
    ensures U32(FileBytes(words), 4 * k) == Number(words[k])
  {
    var b, w := FileBytes(words), Bytes32(Number(words[k]));
    forall p | 4 * k <= p < 4 * k + 4
      ensures b[p] == w[p - 4 * k]
    {
      QuarterOf(p, k);
    }
    assert b[4 * k..4 * k + 4] == w;
    Bytes32RoundTrip(b, 4 * k, Number(words[k]));
  }

  lemma QuarterOf(p: nat, k: nat)
    requires 4 * k <= p < 4 * k + 4
    ensures p / 4 == k && p % 4 == p - 4 * k
  {
  }

  lemma NumberRoundTrip(w: Word)
    ensures Number(w) as bv32 == w
  {
  }

  lemma FileBytesWord(words: seq<Word>, k: nat)
    requires k < |words|
    ensures U32(FileBytes(words), 4 * k) as bv32 == words[k]
  {
    FileBytesSlice(words, k);
    NumberRoundTrip(words[k]);
  }

  /** The words that a file's bytes stand for. */
  ghost function WordsOf(b: seq<byte>): (words: seq<Word>)
    requires |b| % 4 == 0
    ensures |words| == |b| / 4
  {
    seq(|b| / 4, k requires 0 <= k < |b| / 4 => U32(b, 4 * k) as bv32)
  }

  /** Words written to a file and read back are the same. */
  lemma WordsRoundTrip(words: seq<Word>)
    ensures WordsOf(FileBytes(words)) == words
  {
    forall k | 0 <= k < |words|
      ensures WordsOf(FileBytes(words))[k] == words[k]
    {
      FileBytesWord(words, k);
    }
  }

  method WordAt(b: seq<byte>, k: nat) returns (w: Word)
    requires |b| % 4 == 0 && k < |b| / 4
    ensures w == WordsOf(b)[k]
  {
    return U32(b, 4 * k) as bv32;
  }

  /** last_mask: the bits of the last word that are in use. */
  function LastMask(bitCnt: nat): Word
  {
    if bitCnt % 32 == 0 then 0xffff_ffff else Mask(bitCnt % 32) - 1
  }

  lemma LowBits(k: bv32, n: bv32)
    requires k < n < 32
    ensures ((1 as bv32 << n) - 1) & (1 as bv32 << k) == 1 as bv32 << k
  {
  }

  lemma AndBoth(w: Word, l: Word, m: Word)
    requires l & m == m
    ensures (w & l) & m == w & m
  {
  }

  lemma ShiftAmountsOrdered(j: nat, k: nat)
    requires j < k < 32
    ensures j as bv32 < k as bv32
  {
    ShiftAmount(j);
    ShiftAmount(k);
    ShiftAmountSmall(j);
    ShiftAmountSmall(k);
    NumbersOrdered(j as bv32, k as bv32);
  }

  lemma NumbersOrdered(a: bv32, b: bv32)
    requires a < 32 && b < 32 && (a as int) < (b as int)
    ensures a < b
  {
  }

  lemma LastMaskCovers(n: nat, k: nat)
    requires k < n < 32
    ensures (Mask(n) - 1) & Mask(k) == Mask(k)
  {
    ShiftAmountsOrdered(k, n);
    ShiftAmountSmall(n);
    LowBits(k as bv32, n as bv32);
  }

  /** Masking the last word keeps the bits in use. */
  lemma LastMaskKeeps(w: Word, bitCnt: nat, k: nat)
    requires k < 32 && (bitCnt % 32 == 0 || k < bitCnt % 32)
    ensures Bit(w & LastMask(bitCnt), k) == Bit(w, k)
  {
    if bitCnt % 32 != 0 {
      LastMaskCovers(bitCnt % 32, k);
      AndBoth(w, LastMask(bitCnt), Mask(k));
    }
  }

  /** The words agree on the bits that a last word has in use. */
  ghost predicate SameUsed(w: Word, w': Word, bitCnt: nat)
  {
    forall k :: 0 <= k < 32 && (bitCnt % 32 == 0 || k < bitCnt % 32) ==> Bit(w', k) == Bit(w, k)
  }

  method MaskLast(w: Word, bitCnt: nat) returns (r: Word)
    ensures SameUsed(w, r, bitCnt)
  {
    r := w & LastMask(bitCnt);
    forall k | 0 <= k < 32 && (bitCnt % 32 == 0 || k < bitCnt % 32)
      ensures Bit(r, k) == Bit(w, k)
    {
      LastMaskKeeps(w, bitCnt, k);
    }
  }

  lemma MaskedBits(words: seq<Word>, bitCnt: nat, w: Word)
    requires bitCnt > 0 && |words| == (bitCnt + 31) / 32 && SameUsed(words[|words| - 1], w, bitCnt)
    ensures BitsOf(words[|words| - 1 := w], bitCnt) == BitsOf(words, bitCnt)
  {
    var words' := words[|words| - 1 := w];
    var b, b' := BitsOf(words, bitCnt), BitsOf(words', bitCnt);
    forall i | 0 <= i < bitCnt
      ensures b'[i] == b[i]
    {
      assert b'[i] == Bit(words'[i / 32], i % 32) && b[i] == Bit(words[i / 32], i % 32);
    }
  }

  class BitMap {
    const bitCnt: nat
    const bits: array<Word>

    ghost predicate Valid() reads this, bits
    {
      bits.Length == (bitCnt + 31) / 32
    }

    /** The bitmap as its clients see it. */
    ghost function Bits(): (b: seq<bool>)
      reads this, bits
      requires Valid()
      ensures |b| == bitCnt
    {
      BitsOf(bits[..], bitCnt)
    }

    /** bitmap_create, given the storage malloc returned, whatever it held. */
    constructor (bitCnt: nat, bits: array<Word>)
      requires bits.Length == (bitCnt + 31) / 32
      modifies bits
      ensures Valid() && this.bitCnt == bitCnt && this.bits == bits
      ensures forall i :: 0 <= i < bitCnt ==> !Bits()[i]
    {
      this.bitCnt, this.bits := bitCnt, bits;
      new;
      SetMultiple(0, bitCnt, false);
    }

    /** bitmap_mark */
    method Mark(idx: nat)
      requires Valid() && idx < bitCnt
      modifies bits
      ensures Bits() == old(Bits())[idx := true]
    {
      var i := idx / 32;
      var w := WithBitOn(bits[i], idx % 32);
      WordUpdate(bits[..], bitCnt, idx, w, true);
      SetWord(i, w);
    }

    /** bitmap_reset */
    method Reset(idx: nat)
      requires Valid() && idx < bitCnt
      modifies bits
      ensures Bits() == old(Bits())[idx := false]
    {
      var i := idx / 32;
      var w := WithBitOff(bits[i], idx % 32);
      WordUpdate(bits[..], bitCnt, idx, w, false);
      SetWord(i, w);
    }

    method SetWord(i: nat, w: Word)
      requires i < bits.Length
      modifies bits
      ensures bits[..] == old(bits[..])[i := w]
    {
      bits[i] := w;
    }

    /** bitmap_test */
    method Test(idx: nat) returns (v: bool)
      requires Valid() && idx < bitCnt
      ensures v == Bits()[idx]
    {
      v := bits[idx / 32] & Mask(idx % 32) != 0;
      assert bits[..][idx / 32] == bits[idx / 32];
    }

    /** bitmap_read, given the bytes that the file had: they replace as much of the stored words as
        they cover, and it reports whether that is all of them. */
    method ReadBytes(b: seq<byte>) returns (ok: bool)
      requires Valid() && |b| <= 4 * bits.Length
      modifies bits
      ensures ok <==> |b| == 4 * bits.Length
      ensures Bits() == BitsOf(WordsOf(b + FileBytes(old(bits[..]))[|b|..]), bitCnt)
    {
      var buffer := b + FileBytes(bits[..])[|b|..];
      ghost var words := WordsOf(buffer);
      if bitCnt > 0 {
        for k := 0 to bits.Length
          invariant bits[..k] == words[..k]
        {
          var w := WordAt(buffer, k);
          bits[k] := w;
        }
        var last := bits.Length - 1;
        assert bits[..] == words;
        var w := MaskLast(bits[last], bitCnt);
        MaskedBits(words, bitCnt, w);
        SetWord(last, w);
      }
      ok := |b| == 4 * bits.Length;
    }

    /** bitmap_set_multiple */
    method SetMultiple(start: nat, cnt: nat, v: bool)
      requires Valid() && start + cnt <= bitCnt
      modifies bits
      ensures Bits() == Filled(old(Bits()), start, cnt, v)
    {
      ghost var before := Bits();
      for i := 0 to cnt
        invariant Bits() == Filled(before, start, i, v)
      {
        if v { Mark(start + i); } else { Reset(start + i); }
      }
    }

    /** bitmap_contains */
    method Contains(start: nat, cnt: nat, v: bool) returns (r: bool)
      requires Valid() && start + cnt <= bitCnt
      ensures r == !All(Bits(), start, cnt, !v)
    {
      for i := 0 to cnt
        invariant All(Bits(), start, i, !v)
      {
        var t := Test(start + i);
        if t == v { return true; }
      }
      return false;
    }

    /** bitmap_scan: first fit, or nothing when there is no fit. */
    method Scan(start: nat, cnt: nat, v: bool) returns (r: Option<nat>)
      requires Valid() && start <= bitCnt
      ensures match r
              case Some(i) => FirstFit(Bits(), start, cnt, v, i)
              case None => NoFit(Bits(), start, bitCnt + 1, cnt, v)
    {
      if cnt <= bitCnt {
        var last := bitCnt - cnt;
        var i := start;
        while i <= last
          invariant start <= i
          invariant NoFit(Bits(), start, i, cnt, v)
        {
          var other := Contains(i, cnt, !v);
          if !other { return Some(i); }
          i := i + 1;
        }
      }
      return None;
    }

    /** bitmap_scan_and_flip */
    method ScanAndFlip(start: nat, cnt: nat, v: bool) returns (r: Option<nat>)
      requires Valid() && start <= bitCnt
      modifies bits
      ensures match r
              case Some(i) => FirstFit(old(Bits()), start, cnt, v, i) && Bits() == Filled(old(Bits()), i, cnt, !v)
              case None => NoFit(old(Bits()), start, bitCnt + 1, cnt, v) && Bits() == old(Bits())
    {
      r := Scan(start, cnt, v);
      if r.Some? { SetMultiple(r.value, cnt, !v); }
    }
  }
}
