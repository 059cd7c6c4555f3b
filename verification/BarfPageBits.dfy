/** How many pages one request can name: a vector of eight words of 32 bits. */
module BarfSizes {

  const BARF_PAGE_BITS_SIZE := 8
  const PAGES := 256
}

/**
 The 256-bit vectors that record which pages of a multi-block read are still missing, and the
 smart retry that re-bases a request on the smallest range covering them.
 */
module BarfPageBits {
  import opened BarfSizes

  /** A uint32 as its bits, the most significant one first. */
  type Word = w: seq<bool> | |w| == 32 witness seq(32, _ => false)

  const ZERO: Word := seq(32, _ => false)
  const ALL_ONES: Word := seq(32, _ => true)

  /** 0xFFFFFFFF << (32 - n) */
  function HighOnes(n: nat): Word
    requires n <= 32
  {
    seq(32, j => j < n)
  }

  function ShiftLeft(w: Word): Word { w[1..] + [false] }

  /** BIT_IS_SET */
  predicate BitIsSet(words: seq<Word>, bit: nat)
    requires |words| == BARF_PAGE_BITS_SIZE && bit < PAGES
  {
    words[bit / 32][bit % 32]
  }

  /** SET_BIT */
  function SetBit(words: seq<Word>, bit: nat): seq<Word>
    requires |words| == BARF_PAGE_BITS_SIZE && bit < PAGES
  {
    words[bit / 32 := words[bit / 32][bit % 32 := true]]
  }

  /** CLEAR_BIT */
  function ClearBit(words: seq<Word>, bit: nat): seq<Word>
    requires |words| == BARF_PAGE_BITS_SIZE && bit < PAGES
  {
    words[bit / 32 := words[bit / 32][bit % 32 := false]]
  }

  lemma OneBitChanges(words: seq<Word>, bit: nat)
    requires |words| == BARF_PAGE_BITS_SIZE && bit < PAGES
    ensures forall p: nat | p < PAGES :: BitIsSet(SetBit(words, bit), p) <==> p == bit || BitIsSet(words, p)
    ensures forall p: nat | p < PAGES :: BitIsSet(ClearBit(words, bit), p) <==> p != bit && BitIsSet(words, p)
  {
    forall p: nat | p < PAGES && p != bit ensures p / 32 != bit / 32 || p % 32 != bit % 32 {
      assert p == p / 32 * 32 + p % 32;
    }
  }

  /** The relative numbers of the pages whose bits are set. */
  ghost function Pages(words: seq<Word>): set<int>
    requires |words| == BARF_PAGE_BITS_SIZE
  {
    set p: nat | p < PAGES && BitIsSet(words, p)
  }

  method SetPageBits(pageBits: array<Word>, blocks: nat)
    requires pageBits.Length == BARF_PAGE_BITS_SIZE
    modifies pageBits
    ensures forall p: nat | p < PAGES ::
              BitIsSet(pageBits[..], p) <==> if p / 32 * 32 < blocks then p < blocks else old(BitIsSet(pageBits[..], p))
  {
    var i, left := 0, blocks;
    while i < BARF_PAGE_BITS_SIZE && left > 0
      invariant 0 <= i <= BARF_PAGE_BITS_SIZE
      invariant left == if blocks <= 32 * i then 0 else blocks - 32 * i
      invariant forall k | 0 <= k < BARF_PAGE_BITS_SIZE ::
                  pageBits[k] == if k < i && 32 * k < blocks
                                 then HighOnes(if blocks - 32 * k < 32 then blocks - 32 * k else 32)
                                 else old(pageBits[k])
      decreases BARF_PAGE_BITS_SIZE - i
    {
      if left >= 32 {
        pageBits[i] := ALL_ONES;
        assert ALL_ONES == HighOnes(32);
      } else {
        pageBits[i] := HighOnes(left);
        i := i + 1;
        break;
      }
      left := left - 32;
      i := i + 1;
    }
  }

  /** low and high are the smallest and the largest of the set bits below n; low is -1 if there is none. */
  ghost predicate RangeOf(words: seq<Word>, n: int, low: int, high: int)
    requires |words| == BARF_PAGE_BITS_SIZE && 0 <= n <= PAGES
  {
    && (low == -1 ==> forall p: nat | p < n :: !BitIsSet(words, p))
    && (low != -1 ==>
          && 0 <= low <= high < n && BitIsSet(words, low) && BitIsSet(words, high)
          && forall p: nat | p < n && BitIsSet(words, p) :: low <= p <= high)
  }

  lemma BitOfWord(words: seq<Word>, i: nat, j: nat)
    requires |words| == BARF_PAGE_BITS_SIZE && i < BARF_PAGE_BITS_SIZE && j < 32
    ensures BitIsSet(words, 32 * i + j) == words[i][j]
  {
  }

  lemma NoneInWord(words: seq<Word>, i: nat)
    requires |words| == BARF_PAGE_BITS_SIZE && i < BARF_PAGE_BITS_SIZE && words[i] == ZERO
    ensures forall p: nat | 32 * i <= p < 32 * i + 32 :: !BitIsSet(words, p)
  {
  }

  method MissingPageRange(pageBits: array<Word>) returns (found: bool, low: int, high: int)
    requires pageBits.Length == BARF_PAGE_BITS_SIZE
    ensures found <==> Pages(pageBits[..]) != {}
    ensures found ==>
              && low in Pages(pageBits[..]) && high in Pages(pageBits[..])
              && forall p | p in Pages(pageBits[..]) :: low <= p <= high
  {
    var l, h := -1, 0;
    ghost var bits := pageBits[..];
    for i := 0 to BARF_PAGE_BITS_SIZE
      invariant RangeOf(bits, 32 * i, l, h)
    {
      var word := pageBits[i];
      if word == ZERO {
        NoneInWord(bits, i);
      } else {
        for j := 0 to 32
          invariant RangeOf(bits, 32 * i + j, l, h)
          invariant forall k | 0 <= k < 32 - j :: word[k] == pageBits[i][j + k]
        {
          BitOfWord(bits, i, j);
          if word[0] {
            h := 32 * i + j;
            if l == -1 {
              l := h;
            }
          }
          word := ShiftLeft(word);
        }
      }
    }
    if l == -1 {
      return false, 0, 0;
    }
    assert l in Pages(bits);
    return true, l, h;
  }

  /** Moves the bits low..high to the front, and clears the rest. */
  method UpdatePageBits(pageBits: array<Word>, low: nat, high: nat)
    requires pageBits.Length == BARF_PAGE_BITS_SIZE && low <= high < PAGES
    modifies pageBits
    ensures forall p: nat | p < PAGES ::
              BitIsSet(pageBits[..], p) <==> low + p <= high && old(BitIsSet(pageBits[..], low + p))
  {
    var tmp := new Word[BARF_PAGE_BITS_SIZE](_ => ZERO);
    ghost var bits := pageBits[..];
    var i := low;
    while i <= high
      invariant low <= i <= high + 1 && fresh(tmp) && pageBits[..] == bits == old(pageBits[..])
      invariant forall p: nat | p < PAGES :: BitIsSet(tmp[..], p) <==> low + p < i && BitIsSet(bits, low + p)
      decreases high + 1 - i
    {
      if pageBits[i / 32][i % 32] {
        var bit := i - low;
        OneBitChanges(tmp[..], bit);
        ghost var after := SetBit(tmp[..], bit);
        tmp[bit / 32] := tmp[bit / 32][bit % 32 := true];
        assert tmp[..] == after;
      }
      i := i + 1;
    }
    ghost var words := tmp[..];
    forall k | 0 <= k < BARF_PAGE_BITS_SIZE {
      pageBits[k] := tmp[k];
    }
    assert pageBits[..] == words && old(pageBits[..]) == bits;
    forall p: nat | p < PAGES
      ensures BitIsSet(pageBits[..], p) <==> low + p <= high && BitIsSet(bits, low + p)
    {
      assert BitIsSet(words, p) <==> low + p < high + 1 && BitIsSet(bits, low + p);
    }
  }
}
