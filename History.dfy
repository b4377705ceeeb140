/**
 * struct History and navhist: the lines of the history file and the
 * index of the entry shown, where index == size stands for the input
 * the user was typing, past the newest entry.
 */
module Hist {
  import opened Defs

  class History {
    var entries: seq<seq<byte>>
    var index: nat

    ghost predicate Valid()
      reads this
    {
      index <= |entries|
    }

    /**
     * The state loadhist leaves, the file's lines given as a parameter:
     * all of them, with the index past the newest. With no lines this is
     * the initial {.index = 0, .size = 0} of main.
     */
    constructor(lines: seq<seq<byte>>)
      ensures Valid() && entries == lines && index == |lines|
    {
      entries := lines;
      index := |lines|;
    }

    /**
     * navhist(hist, direction): a negative direction moves to the older
     * entry, stopping at the oldest; any other moves to the newer entry,
     * stopping at the newest. Returns the entry reached, or None when the
     * index was, and stays, past the newest entry.
     */
    method NavHist(direction: int) returns (r: Option<seq<byte>>)
      requires Valid()
      modifies this
      ensures Valid() && entries == old(entries)
      ensures r.None? <==> index == |entries|
      ensures r.Some? ==> r.value == entries[index]
      ensures index == NavIndex(old(index), |entries|, direction)
    {
      if direction < 0 {
        if index > 0 {
          index := index - 1;
        }
      } else {
        if index + 1 < |entries| {
          index := index + 1;
        }
      }
      if index == |entries| {
        return None;
      }
      return Some(entries[index]);
    }
  }

  /** The index navhist moves to, as a function of the old one. */
  function NavIndex(index: nat, size: nat, direction: int): (i: nat)
    requires index <= size
    ensures i <= size
    ensures direction < 0 ==> i <= index && (index > 0 ==> i == index - 1)
    ensures direction >= 0 ==> index <= i && (i == index + 1 || i == index)
  {
    if direction < 0 then (if index > 0 then index - 1 else 0)
    else if index + 1 < size then index + 1 else index
  }

  /**
   * Once the index leaves the end it never returns there: navhist yields
   * an entry from then on, and the first step back from the end yields
   * the newest entry.
   */
  lemma {:induction false} NavHistStaysOnEntries(index: nat, size: nat, direction: int)
    requires index <= size
    ensures index < size ==> NavIndex(index, size, direction) < size
    ensures NavIndex(index, size, direction) == size ==> index == size && (direction >= 0 || size == 0)
    ensures index == size > 0 && direction < 0 ==> NavIndex(index, size, direction) == size - 1
  {
  }

  /** From any entry, k steps up then k steps down end where they began, when no end is reached. */
  lemma {:induction false} NavRoundTrip(index: nat, size: nat, k: nat)
    requires k <= index < size
    ensures Older(index, size, k) == index - k
    ensures Newer(index - k, size, k) == index
  {
    OlderSteps(index, size, k);
    NewerSteps(index - k, size, k);
  }

  /** k applications of navhist(hist, -1). */
  function Older(index: nat, size: nat, k: nat): (i: nat)
    requires index <= size
    ensures i <= index
    decreases k
  {
    if k == 0 then index else Older(NavIndex(index, size, -1), size, k - 1)
  }

  /** k applications of navhist(hist, +1). */
  function Newer(index: nat, size: nat, k: nat): (i: nat)
    requires index <= size
    ensures index <= i <= size
    decreases k
  {
    if k == 0 then index else Newer(NavIndex(index, size, 1), size, k - 1)
  }

  /** Going up k times from an entry at or above k moves exactly k entries. */
  lemma {:induction false} OlderSteps(index: nat, size: nat, k: nat)
    requires k <= index <= size
    ensures Older(index, size, k) == index - k
  {
    if k > 0 {
      OlderSteps(index - 1, size, k - 1);
    }
  }

  /** Going down k times from an entry at least k below the newest moves exactly k entries. */
  lemma {:induction false} NewerSteps(index: nat, size: nat, k: nat)
    requires index + k < size
    ensures Newer(index, size, k) == index + k
    decreases k
  {
    if k > 0 {
      NewerSteps(index + 1, size, k - 1);
    }
  }
}
