/** Places in a binary heap stored in an array. */
module HeapShape {
  function Parent(k: int): (p: int)
    requires k > 0
    ensures 0 <= p < k
  {
    (k - 1) / 2
  }

  lemma ChildrenOf(p: nat)
    ensures forall k :: k > 0 && Parent(k) == p ==> k == 2 * p + 1 || k == 2 * p + 2
  {
  }
}
