/** Small facts about lists without repetition. */
module Lists {

  /** The element at position `k`, 0 beyond either end. */
  function Item(list: seq<nat>, k: int): nat {
    if 0 <= k < |list| then list[k] else 0
  }

  ghost predicate Distinct(list: seq<nat>) {
    forall k, l :: 0 <= k < l < |list| ==> list[k] != list[l]
  }

  ghost function Members(list: seq<nat>): set<nat> {
    set n | n in list
  }

  function Without(list: seq<nat>, k: nat): seq<nat>
    requires k < |list|
  {
    list[..k] + list[k + 1..]
  }

  lemma WithoutMembers(list: seq<nat>, k: nat)
    requires k < |list| && Distinct(list)
    ensures forall x :: x in Without(list, k) <==> x in list && x != list[k]
  {
    forall x | x in list && x != list[k] ensures x in Without(list, k) {
      var j :| 0 <= j < |list| && list[j] == x;
      assert Without(list, k)[if j < k then j else j - 1] == x;
    }
  }

  lemma WithoutShorter(list: seq<nat>, k: nat)
    requires k < |list|
    ensures |Without(list, k)| == |list| - 1
  {
  }

  lemma WithoutDistinct(list: seq<nat>, k: nat)
    requires k < |list| && Distinct(list)
    ensures Distinct(Without(list, k))
  {
  }
}
