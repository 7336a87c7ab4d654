/** Random choice of a list entry. The random number source is replaced by
    a draw that the caller supplies; any draw selects a position inside the
    list, and every position is selected by some draw. */
module Choice {
  import opened Optional

  /** getRandomNumber(0, len): a position in [0, len), and 0 for an empty
      list, because scaling the random number by 0 yields 0. */
  function RandomIndex(len: nat, draw: nat): (i: nat)
    ensures len > 0 ==> i < len
    ensures len == 0 ==> i == 0
  {
    if len == 0 then 0 else draw % len
  }

  /** The item and index that getRandomItemInList reports; `item` is None
      where the source reads past the end of the list and gets undefined. */
  datatype Pick<T> = Pick(item: Option<T>, index: nat)

  function RandomItem<T>(list: seq<T>, draw: nat): (p: Pick<T>)
    ensures p.index == RandomIndex(|list|, draw)
    ensures p.item.Some? <==> list != []
    ensures p.item.Some? ==> p.index < |list| && p.item.value == list[p.index]
  {
    var i := RandomIndex(|list|, draw);
    Pick(if i < |list| then Some(list[i]) else None, i)
  }

  /** Every entry of a non-empty list can be chosen. */
  lemma RandomItemReachesEvery<T>(list: seq<T>, k: nat)
    requires k < |list|
    ensures exists draw: nat :: RandomItem(list, draw) == Pick(Some(list[k]), k)
  {
    assert RandomItem(list, k) == Pick(Some(list[k]), k);
  }
}
