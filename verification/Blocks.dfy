// Lists of memory blocks in address order, as both heaps keep them.
module Blocks {
  datatype Block = Block(off: nat, used: bool)

  predicate BothFree(bs: seq<Block>, i: nat)
    requires 0 < i < |bs|
  {
    !bs[i - 1].used && !bs[i].used
  }

  // No two neighbours are both free.
  ghost predicate Coalesced(bs: seq<Block>) {
    forall i :: 0 < i < |bs| ==> !BothFree(bs, i)
  }

  // Apart from around block i, no two neighbours of bs are both free.
  ghost predicate CoalescedBut(bs: seq<Block>, i: nat) {
    forall k :: 0 < k < |bs| && k != i && k != i + 1 ==> !BothFree(bs, k)
  }

  function IndexOf(bs: seq<Block>, off: nat): (i: nat)
    ensures i <= |bs|
    ensures i < |bs| ==> bs[i].off == off
    ensures forall k :: 0 <= k < i ==> bs[k].off != off
  {
    if bs == [] || bs[0].off == off then 0
    else
      var rest := IndexOf(bs[1..], off);
      assert forall k :: 0 < k < 1 + rest ==> bs[k] == bs[1..][k - 1];
      1 + rest
  }

  function Drop(bs: seq<Block>, i: nat): seq<Block> requires i < |bs| { bs[..i] + bs[i + 1..] }
}
