/**
 lib/bitmap.cc: bits packed into 32-bit words, and what its operations mean for the set of marked
 numbers.
*/
module Bitmaps {
  import opened Common

  const BITS_IN_WORD := 32

  /** 1 << i */
  function Bit(i: nat): bv32
    requires i < 32
  {
    (1 as bv32) << i
  }

  /** The bits of a word, from the low end: each stands for twice as much as the one before. */
  lemma BitsDouble(j: nat)
    requires j < 31
    ensures Bit(0) == 1 && Bit(j + 1) == Bit(j) + Bit(j)
  {
  }

  /** Number i is bit i % 32 of word i / 32. */
  lemma BitMeans(words: seq<bv32>, i: nat)
    requires i / 32 < |words|
    ensures TestBit(words, i) <==> words[i / 32] & Bit(i % 32) != 0
  {
  }

  predicate BitSet(m: bv32, j: nat)
    requires j < 32
  {
    m & Bit(j) != 0
  }

  lemma BitsApart(i: nat, j: nat)
    requires i < 32 && j < 32 && i != j
    ensures Bit(i) & Bit(j) == 0
  {
  }

  lemma BitNonZero(i: nat)
    requires i < 32
    ensures Bit(i) != 0
  {
  }

  lemma OrOther(m: bv32, x: bv32, y: bv32)
    requires x & y == 0
    ensures (m | x) & y == m & y
  {
  }

  lemma OrSame(m: bv32, x: bv32)
    requires x != 0
    ensures (m | x) & x != 0
  {
  }

  lemma AndNotOther(m: bv32, x: bv32, y: bv32)
    requires x & y == 0
    ensures (m & !x) & y == m & y
  {
  }

  lemma AndNotSame(m: bv32, x: bv32)
    ensures (m & !x) & x == 0
  {
  }

  lemma MarkOther(m: bv32, i: nat, j: nat)
    requires i < 32 && j < 32 && i != j
    ensures BitSet(m | Bit(i), j) <==> BitSet(m, j)
  {
    BitsApart(i, j);
    OrOther(m, Bit(i), Bit(j));
  }

  lemma ClearOther(m: bv32, i: nat, j: nat)
    requires i < 32 && j < 32 && i != j
    ensures BitSet(m & !Bit(i), j) <==> BitSet(m, j)
  {
    BitsApart(i, j);
    AndNotOther(m, Bit(i), Bit(j));
  }

  /** Setting a bit sets that bit and no other. */
  lemma MarkBits(m: bv32, i: nat, w: bv32)
    requires i < 32 && w == m | Bit(i)
    ensures BitSet(w, i) && forall j: nat :: j < 32 && j != i ==> (BitSet(w, j) <==> BitSet(m, j))
  {
    BitNonZero(i);
    OrSame(m, Bit(i));
    forall j: nat | j < 32 && j != i ensures BitSet(w, j) <==> BitSet(m, j) {
      MarkOther(m, i, j);
    }
  }

  lemma ClearBits(m: bv32, i: nat, w: bv32)
    requires i < 32 && w == m & !Bit(i)
    ensures !BitSet(w, i) && forall j: nat :: j < 32 && j != i ==> (BitSet(w, j) <==> BitSet(m, j))
  {
    AndNotSame(m, Bit(i));
    forall j: nat | j < 32 && j != i ensures BitSet(w, j) <==> BitSet(m, j) {
      ClearOther(m, i, j);
    }
  }

  /** The number of words for n bits is divRoundUp(n, BitsInWord). */
  predicate WordsFor(words: seq<bv32>, n: nat) {
    |words| == DivRoundUp(n, BITS_IN_WORD)
  }

  predicate TestBit(words: seq<bv32>, i: nat)
    requires i / BITS_IN_WORD < |words|
  {
    BitSet(words[i / BITS_IN_WORD], i % BITS_IN_WORD)
  }

  /** The set that the first n bits of the words stand for. */
  function Marked(words: seq<bv32>, n: nat): set<nat> {
    set i: nat | i < n && i / BITS_IN_WORD < |words| && TestBit(words, i)
  }

  lemma ChangeWord(words: seq<bv32>, n: nat, which: nat, w: bv32, on: bool)
    requires WordsFor(words, n) && which < n
    requires which / BITS_IN_WORD < |words|
    requires BitSet(w, which % BITS_IN_WORD) == on
    requires forall j: nat :: j < 32 && j != which % BITS_IN_WORD ==>
               (BitSet(w, j) <==> BitSet(words[which / BITS_IN_WORD], j))
    ensures Marked(words[which / BITS_IN_WORD := w], n) ==
              if on then Marked(words, n) + {which} else Marked(words, n) - {which}
  {
  }

  lemma NoneMarked(words: seq<bv32>, n: nat)
    requires forall k :: 0 <= k < |words| ==> words[k] == 0
    ensures Marked(words, n) == {}
  {
  }

  // ---------------------------------------------------------------- free numbers

  /** The first number from i on, below n, that is not in the set; -1 if there is none. */
  function FirstClear(marked: set<nat>, i: nat, n: nat): (r: int)
    ensures r == -1 || (i <= r < n && r !in marked)
    decreases n - i
  {
    if i >= n then -1 else if i !in marked then i else FirstClear(marked, i + 1, n)
  }

  lemma {:induction false} FirstClearIsFirst(marked: set<nat>, i: nat, n: nat, k: nat)
    requires i <= k < n && (FirstClear(marked, i, n) == -1 || k < FirstClear(marked, i, n))
    ensures k in marked
    decreases n - i
  {
    if i < k {
      FirstClearIsFirst(marked, i + 1, n, k);
    }
  }

  /** How many numbers below n are not in the set. */
  function CountClear(marked: set<nat>, n: nat): nat {
    if n == 0 then 0 else CountClear(marked, n - 1) + if n - 1 in marked then 0 else 1
  }

  /** Clear and marked numbers together are all numbers. */
  lemma {:induction false} ClearAndMarked(marked: set<nat>, n: nat)
    requires forall x :: x in marked ==> x < n
    ensures CountClear(marked, n) + |marked| == n
  {
    if n == 0 {
      assert marked == {};
    } else if n - 1 in marked {
      ClearAndMarked(marked - {n - 1}, n - 1);
      SameCount(marked, marked - {n - 1}, n - 1);
      RemoveSize(marked, n - 1);
    } else {
      ClearAndMarked(marked, n - 1);
    }
  }

  lemma {:induction false} SameCount(a: set<nat>, b: set<nat>, n: nat)
    requires forall x: nat :: x < n ==> (x in a <==> x in b)
    ensures CountClear(a, n) == CountClear(b, n)
  {
    if n > 0 {
      SameCount(a, b, n - 1);
    }
  }

  lemma {:induction false} FirstClearExists(marked: set<nat>, n: nat)
    ensures FirstClear(marked, 0, n) == -1 <==> CountClear(marked, n) == 0
  {
    var f := FirstClear(marked, 0, n);
    if f == -1 {
      forall x: nat | x < n ensures x in marked {
        FirstClearIsFirst(marked, 0, n, x);
      }
      AllMarked(marked, n);
    } else if CountClear(marked, n) == 0 {
      SomeClear(marked, n, f);
    }
  }

  lemma {:induction false} AllMarked(marked: set<nat>, n: nat)
    requires forall x: nat :: x < n ==> x in marked
    ensures CountClear(marked, n) == 0
  {
    if n > 0 {
      AllMarked(marked, n - 1);
    }
  }

  lemma {:induction false} SomeClear(marked: set<nat>, n: nat, x: nat)
    requires x < n && x !in marked
    ensures CountClear(marked, n) > 0
  {
    if x < n - 1 {
      SomeClear(marked, n - 1, x);
    }
  }

  lemma {:induction false} MarkLowersClear(marked: set<nat>, n: nat, x: nat)
    requires x < n && x !in marked
    ensures CountClear(marked + {x}, n) == CountClear(marked, n) - 1
  {
    if x == n - 1 {
      SameCount(marked + {x}, marked, n - 1);
    } else {
      MarkLowersClear(marked, n - 1, x);
    }
  }

  /** What k calls of FindAndSet return. */
  function TakeClear(marked: set<nat>, n: nat, k: nat): seq<nat>
    decreases k
  {
    var f := FirstClear(marked, 0, n);
    if k == 0 || f < 0 then [] else [f] + TakeClear(marked + {f}, n, k - 1)
  }

  function Elements<T>(s: seq<T>): set<T> {
    set x | x in s
  }

  lemma AddElements(marked: set<nat>, f: nat, rest: seq<nat>)
    ensures marked + Elements([f] + rest) == marked + {f} + Elements(rest)
  {
  }

  lemma TakeClearUnfolds(marked: set<nat>, n: nat, k: nat)
    requires 0 < k <= CountClear(marked, n)
    ensures var f := FirstClear(marked, 0, n);
            && 0 <= f < n && f !in marked
            && TakeClear(marked, n, k) == [f] + TakeClear(marked + {f}, n, k - 1)
            && CountClear(marked + {f}, n) == CountClear(marked, n) - 1
            && marked + Elements(TakeClear(marked, n, k)) == marked + {f} + Elements(TakeClear(marked + {f}, n, k - 1))
  {
    FirstClearExists(marked, n);
    var f := FirstClear(marked, 0, n);
    MarkLowersClear(marked, n, f);
    AddElements(marked, f, TakeClear(marked + {f}, n, k - 1));
  }

  /** As long as enough are clear, they are k different numbers that were all clear. */
  lemma {:induction false} TakeClearIsFresh(marked: set<nat>, n: nat, k: nat)
    requires k <= CountClear(marked, n)
    ensures |TakeClear(marked, n, k)| == k && Distinct(TakeClear(marked, n, k))
    ensures forall x :: x in TakeClear(marked, n, k) ==> x < n && x !in marked
    ensures CountClear(marked + Elements(TakeClear(marked, n, k)), n) == CountClear(marked, n) - k
    decreases k
  {
    if k > 0 {
      TakeClearUnfolds(marked, n, k);
      TakeClearIsFresh(marked + {FirstClear(marked, 0, n)}, n, k - 1);
    } else {
      assert marked + Elements<nat>([]) == marked;
    }
  }

  /** They are the lowest clear numbers, in ascending order: every clear number below one of them comes before it. */
  lemma {:induction false} TakeClearIsLowest(marked: set<nat>, n: nat, k: nat, i: nat, x: nat)
    requires k <= CountClear(marked, n) && i < |TakeClear(marked, n, k)| && x < TakeClear(marked, n, k)[i]
    requires x !in marked
    ensures x in TakeClear(marked, n, k)[..i]
    decreases k
  {
    var f, all := FirstClear(marked, 0, n), TakeClear(marked, n, k);
    TakeClearUnfolds(marked, n, k);
    TakeClearIsFresh(marked, n, k);
    assert all[i] in all;
    var rest := TakeClear(marked + {f}, n, k - 1);
    if x < f || i == 0 {
      FirstClearIsFirst(marked, 0, n, x);
    } else if x == f {
      assert all[..i][0] == f;
    } else {
      TakeClearIsLowest(marked + {f}, n, k - 1, i - 1, x);
      assert all[..i] == [f] + rest[..i - 1];
    }
  }

  /** Taking k numbers and then one more is taking k + 1. */
  lemma {:induction false} TakeOneMore(marked: set<nat>, n: nat, k: nat)
    requires k < CountClear(marked, n)
    ensures FirstClear(marked + Elements(TakeClear(marked, n, k)), 0, n) >= 0
    ensures TakeClear(marked, n, k + 1) ==
              TakeClear(marked, n, k) + [FirstClear(marked + Elements(TakeClear(marked, n, k)), 0, n)]
    decreases k
  {
    TakeClearUnfolds(marked, n, k + 1);
    var f := FirstClear(marked, 0, n);
    if k == 0 {
      assert marked + Elements(TakeClear(marked, n, 0)) == marked;
      assert TakeClear(marked + {f}, n, 0) == [];
    } else {
      TakeClearUnfolds(marked, n, k);
      TakeOneMore(marked + {f}, n, k - 1);
    }
  }

  /** The marked numbers after k calls of FindAndSet. */
  ghost function AfterTaking(marked: set<nat>, n: nat, k: nat): set<nat> {
    marked + Elements(TakeClear(marked, n, k))
  }

  lemma NothingTaken(marked: set<nat>, n: nat)
    ensures AfterTaking(marked, n, 0) == marked
  {
  }

  lemma TakeStep(marked: set<nat>, n: nat, i: nat)
    requires i < CountClear(marked, n)
    ensures var next := FirstClear(AfterTaking(marked, n, i), 0, n);
            && next >= 0 && TakeClear(marked, n, i + 1) == TakeClear(marked, n, i) + [next]
            && AfterTaking(marked, n, i + 1) == AfterTaking(marked, n, i) + {next as nat}
  {
    TakeOneMore(marked, n, i);
  }

  /** Taking fewer numbers is taking the first of them. */
  lemma {:induction false} TakePrefix(marked: set<nat>, n: nat, i: nat, k: nat)
    requires i <= k <= CountClear(marked, n)
    ensures TakeClear(marked, n, i) <= TakeClear(marked, n, k)
  {
    if i < k {
      TakePrefix(marked, n, i, k - 1);
      TakeOneMore(marked, n, k - 1);
    }
  }

  // ---------------------------------------------------------------- the class

  class Bitmap {
    const numBits: nat
    const words: array<bv32>

    ghost predicate Valid()
      reads this, words
    {
      numBits > 0 && WordsFor(words[..], numBits)
    }

    ghost function Set(): set<nat>
      reads this, words
    {
      Marked(words[..], numBits)
    }

    constructor (numItems: nat)
      requires numItems > 0
      ensures Valid() && numBits == numItems && Set() == {} && fresh(words)
    {
      numBits := numItems;
      words := new bv32[DivRoundUp(numItems, BITS_IN_WORD)];
      new;
      for i := 0 to words.Length
        invariant forall k :: 0 <= k < i ==> words[k] == 0
      {
        words[i] := 0;
      }
      NoneMarked(words[..], numBits);
      for i := 0 to numItems
        invariant Set() == {}
      {
        Clear(i);
      }
    }

    method Mark(which: nat)
      requires Valid() && which < numBits
      modifies words
      ensures Valid() && Set() == old(Set()) + {which}
    {
      ghost var before, k := words[..], which / BITS_IN_WORD;
      words[which / BITS_IN_WORD] := words[which / BITS_IN_WORD] | Bit(which % BITS_IN_WORD);
      assert words[..] == before[k := words[k]];
      MarkBits(before[k], which % BITS_IN_WORD, words[k]);
      ChangeWord(before, numBits, which, words[k], true);
    }

    method Clear(which: nat)
      requires Valid() && which < numBits
      modifies words
      ensures Valid() && Set() == old(Set()) - {which}
    {
      ghost var before, k := words[..], which / BITS_IN_WORD;
      words[which / BITS_IN_WORD] := words[which / BITS_IN_WORD] & !Bit(which % BITS_IN_WORD);
      assert words[..] == before[k := words[k]];
      ClearBits(before[k], which % BITS_IN_WORD, words[k]);
      ChangeWord(before, numBits, which, words[k], false);
    }

    method Test(which: nat) returns (marked: bool)
      requires Valid() && which < numBits
      ensures marked <==> which in Set()
    {
      assert TestBit(words[..], which) == BitSet(words[which / BITS_IN_WORD], which % BITS_IN_WORD);
      marked := BitSet(words[which / BITS_IN_WORD], which % BITS_IN_WORD);
    }

    method FindAndSet() returns (found: int)
      requires Valid()
      modifies words
      ensures Valid() && found == FirstClear(old(Set()), 0, numBits)
      ensures Set() == if found == -1 then old(Set()) else old(Set()) + {found}
    {
      for i := 0 to numBits
        invariant words[..] == old(words[..])
        invariant FirstClear(old(Set()), 0, numBits) == FirstClear(old(Set()), i, numBits)
      {
        var marked := Test(i);
        if !marked {
          Mark(i);
          return i;
        }
      }
      return -1;
    }

    method NumClear() returns (count: nat)
      requires Valid()
      ensures count == CountClear(Set(), numBits)
    {
      count := 0;
      for i := 0 to numBits
        invariant count == CountClear(Set(), i)
      {
        var marked := Test(i);
        if !marked {
          count := count + 1;
        }
      }
    }
  }
}
