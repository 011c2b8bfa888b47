/** Small notions that several modules share. */
module Common {

  datatype Option<+T> = None | Some(value: T)

  /** One more than the largest 64-bit number. */
  const WORD: nat := 0x1_0000_0000_0000_0000

  const PAGE_SIZE: nat := 4096

  function Wrap(a: int): (r: nat)
    ensures r < WORD && (0 <= a < WORD ==> r == a)
  {
    a % WORD
  }

  ghost predicate Distinct<T>(s: seq<T>) { forall i, j | 0 <= i < j < |s| :: s[i] != s[j] }

  function Erased<T>(s: seq<T>, i: nat): seq<T>
    requires i < |s|
  {
    s[..i] + s[i + 1..]
  }

  lemma ErasedDistinct<T>(s: seq<T>, i: nat)
    requires Distinct(s) && i < |s|
    ensures Distinct(Erased(s, i)) && s[i] !in Erased(s, i)
    ensures forall x :: x in Erased(s, i) <==> x in s && x != s[i]
  {
    var fewer := Erased(s, i);
    forall x | x in s && x != s[i] ensures x in fewer {
      var j :| 0 <= j < |s| && s[j] == x;
      assert fewer[if j < i then j else j - 1] == x;
    }
  }

  function Reversed<T>(s: seq<T>): (r: seq<T>)
    ensures |r| == |s|
    ensures forall i | 0 <= i < |s| :: r[i] == s[|s| - 1 - i]
  {
    seq(|s|, i requires 0 <= i < |s| => s[|s| - 1 - i])
  }

  lemma Ordered(a: int, b: int, m: nat)
    requires a <= b
    ensures a * m <= b * m
  {
  }

  /** A quotient is known by its remainder. */
  lemma QuotientIs(n: int, m: nat, q: int)
    requires m > 0
    ensures 0 <= n - q * m < m <==> q == n / m
    ensures q == n / m ==> n % m == n - q * m
  {
    var p := n / m;
    assert n == p * m + n % m;
    if p < q {
      Ordered(1, q - p, m);
      assert (q - p) * m == q * m - p * m;
    } else if q < p {
      Ordered(1, p - q, m);
      assert (p - q) * m == p * m - q * m;
    }
  }

  /** What a whole-page allocation keeps in front of the bytes it returns. */
  const SIZE_HEADER: nat := 8

  /** The page count of an allocation, in 64-bit arithmetic. */
  function PagesFor(bytes: nat): nat { Wrap(Wrap(bytes + SIZE_HEADER) + PAGE_SIZE - 1) / PAGE_SIZE }

  /** The pages cover the request exactly if the sum with header and rounding
      does not pass 64 bits; otherwise there is at most one page. */
  lemma PagesForCovers(bytes: nat)
    requires bytes < WORD
    ensures SIZE_HEADER + bytes <= PagesFor(bytes) * PAGE_SIZE <==> bytes + SIZE_HEADER + PAGE_SIZE - 1 < WORD
    ensures bytes + SIZE_HEADER + PAGE_SIZE - 1 < WORD ==>
      PagesFor(bytes) > 0 && PagesFor(bytes) * PAGE_SIZE < SIZE_HEADER + bytes + PAGE_SIZE
    ensures bytes + SIZE_HEADER + PAGE_SIZE - 1 >= WORD ==> PagesFor(bytes) <= 1
    ensures PagesFor(bytes) < 0x10_0000_0000_0000
  {
  }
}
