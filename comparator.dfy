/** The default three-way comparator of the map (`DefComparator<int>`). */
module DefComparator {

  /** -1 when `l` sorts before `r`, 0 when they are equal, 1 otherwise. */
  function Compare(l: int, r: int): (c: int)
    ensures c == -1 <==> l < r
    ensures c == 0 <==> l == r
    ensures c == 1 <==> r < l
  {
    if l < r then -1
    else if l == r then 0
    else 1
  }

  /** Swapping the arguments negates the answer, so the order is a strict total order. */
  lemma CompareAntisymmetric(a: int, b: int)
    ensures Compare(a, b) == -Compare(b, a)
    ensures Compare(a, a) == 0
  {
  }
}
