// Stock definitions shared by the kernel modules.
module Common {

  datatype Option<+T> = None | Some(value: T)

  /** Thread identity: the address of a Thread object. */
  type Tid = nat

  type Byte = b: int | 0 <= b < 256

  /** C's int and unsigned int, and the casts between them. */
  type Int32 = i: int | -0x8000_0000 <= i < 0x8000_0000

  type Word = w: int | 0 <= w < 0x1_0000_0000

  function Unsigned(i: Int32): Word {
    if i < 0 then i + 0x1_0000_0000 else i
  }

  function Signed(w: Word): Int32 {
    if w >= 0x8000_0000 then w - 0x1_0000_0000 else w
  }

  ghost predicate Distinct<T>(s: seq<T>) {
    forall i, j :: 0 <= i < j < |s| ==> s[i] != s[j]
  }

  /** C's `/` and `%` truncate toward zero; Dafny's are Euclidean. */
  function TruncDiv(a: int, b: int): int
    requires b > 0
  {
    if a >= 0 then a / b else -((-a) / b)
  }

  function TruncMod(a: int, b: int): int
    requires b > 0
  {
    if a >= 0 then a % b else -((-a) % b)
  }

  /** utility.h: divRoundUp(n, s) on C ints. */
  function DivRoundUp(n: int, s: int): int
    requires s > 0
  {
    TruncDiv(n, s) + (if TruncMod(n, s) > 0 then 1 else 0)
  }

  function Min(a: int, b: int): int {
    if a < b then a else b
  }

  /** The numbers below n. */
  function Below(n: nat): (s: set<nat>)
    ensures |s| == n && forall y: nat :: y in s <==> y < n
  {
    if n == 0 then {} else Below(n - 1) + {n - 1}
  }

  /** Removing one member of a finite set lowers its size by one. */
  lemma RemoveSize<T>(s: set<T>, x: T)
    requires x in s
    ensures |s - {x}| == |s| - 1
  {
  }

  /** A subset is no larger. */
  lemma SubsetSize<T>(a: set<T>, b: set<T>)
    requires a <= b
    ensures |a| <= |b|
  {
    assert a + (b - a) == b;
  }

  /** The elements of a sequence without repetitions are as many as its length. */
  lemma {:induction false} DistinctSize<T>(s: seq<T>)
    requires Distinct(s)
    ensures |set x | x in s| == |s|
  {
    if s == [] {
    } else {
      var front, last := s[..|s| - 1], s[|s| - 1];
      DistinctSize(front);
      assert s == front + [last];
      assert (set x | x in s) == (set x | x in front) + {last};
      assert last !in front;
    }
  }
}
