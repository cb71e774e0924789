/** The list of the latest index entries, kept as a ring once it is full (avt_index_list_parse). */
module IndexRing {
  import opened FixedWidth
  import opened Products

  /** The entries of `history` as the list keeps them: appended while there is room, and then each one in the place of
      the oldest. */
  function Ring<E>(history: seq<E>, max: nat): (ring: seq<E>)
    requires max > 0
    ensures |ring| == Min(|history|, max)
  {
    if history == [] then []
    else
      var before, last := Ring(history[..|history| - 1], max), history[|history| - 1];
      if |before| < max then before + [last] else before[(|history| - 1) % max := last]
  }

  /** Positions less than a lap apart are different slots. */
  lemma SlotsDiffer(j: nat, k: nat, max: nat)
    requires max > 0 && j < k < j + max
    ensures j % max != k % max
  {
    if j % max == k % max {
      QuotientBounds(j, max);
      QuotientBounds(k, max);
      MultiplesOrdered(j / max, k / max, max);
    }
  }

  lemma SlotBeforeFull(j: nat, max: nat)
    requires j < max
    ensures j % max == j
  {
  }

  /** Each of the latest entries is found at its position modulo the size. */
  lemma {:induction false} LatestAreKept<E>(history: seq<E>, max: nat, j: nat)
    requires max > 0 && |history| - Min(|history|, max) <= j < |history|
    ensures j % max < |Ring(history, max)| && Ring(history, max)[j % max] == history[j]
  {
    var last := |history| - 1;
    if last < max { SlotBeforeFull(last, max); }
    if j < last {
      LatestAreKept(history[..last], max, j);
      SlotsDiffer(j, last, max);
    }
  }

  /** And nothing else is: every slot holds one of the latest entries. */
  lemma EverySlotIsLatest<E>(history: seq<E>, max: nat, slot: nat) returns (j: nat)
    requires max > 0 && slot < |Ring(history, max)|
    ensures |history| - Min(|history|, max) <= j < |history| && j % max == slot
    ensures Ring(history, max)[slot] == history[j]
  {
    var last := |history| - 1;
    if |history| <= max {
      j := slot;
      SlotBeforeFull(slot, max);
    } else {
      var back := (last - slot) % max;
      j := last - back;
      QuotientBounds(last - slot, max);
      QuotientNonNegative(last - slot, max);
      ProductSign((last - slot) / max, max);
      Distribute(max, (last - slot) / max, 1);
      DivisionUnique(j, max, (last - slot) / max, slot);
    }
    LatestAreKept(history, max, j);
  }

  /** AVTIndexContext */
  class IndexContext<E> {
    var index: seq<E>
    var nbIndex: nat
    var nbAllocIndex: nat
    var nbIndexTotal: nat
    const nbIndexMax: nat

    ghost var history: seq<E>

    ghost predicate Valid()
      reads this
    {
      && nbIndexMax > 0 && nbIndexTotal == |history|
      && nbIndex == nbAllocIndex == |index| && index == Ring(history, nbIndexMax)
    }

    constructor (max: nat)
      requires max > 0
      ensures Valid() && nbIndexMax == max && history == []
    {
      index, nbIndex, nbAllocIndex, nbIndexTotal, nbIndexMax, history := [], 0, 0, 0, max, [];
    }

    /** avt_index_list_parse, with the entries that the byte stream decodes to. */
    method Parse(entries: seq<E>)
      requires Valid()
      modifies this
      ensures Valid() && history == old(history) + entries
      ensures nbIndex == Min(|history|, nbIndexMax)
    {
      for i := 0 to |entries|
        invariant Valid() && history == old(history) + entries[..i]
      {
        var dst := nbIndex;
        if nbIndex >= nbIndexMax {
          dst := nbIndexTotal % nbIndexMax;
        } else if nbIndex + 1 > nbAllocIndex {
          index := index + [entries[i]];  // the slot that the reallocation adds
          nbIndex := nbIndex + 1;
          nbAllocIndex := nbAllocIndex + 1;
        }
        index := index[dst := entries[i]];
        nbIndexTotal := nbIndexTotal + 1;
        history := history + [entries[i]];
        assert history[..|history| - 1] == old(history) + entries[..i];
      }
      assert entries[..|entries|] == entries;
    }
  }
}
