/** The bookmark ledger: the ordered list of saved episode ids and its
    toggle rule (`handleToggleSave` in App.tsx). */
module Bookmarks {
  import opened Seqs

  /** Toggling `id` removes every occurrence when it is present and
      appends it at the end otherwise. */
  function Toggle(ledger: seq<int>, id: int): (r: seq<int>)
    ensures id in r <==> id !in ledger
    ensures forall y :: y != id ==> multiset(r)[y] == multiset(ledger)[y]
    ensures id !in ledger ==> |r| == |ledger| + 1 && r[..|ledger|] == ledger && r[|ledger|] == id
    ensures id in ledger ==> Subsequence(r, ledger)
  {
    if id in ledger then RemoveAll(ledger, id) else ledger + [id]
  }

  /** For an absent id, two toggles give back exactly the original ledger. */
  lemma ToggleTwiceAbsent(ledger: seq<int>, id: int)
    requires id !in ledger
    ensures Toggle(Toggle(ledger, id), id) == ledger
  {
    RemoveAllAppend(ledger, [id], id);
    assert RemoveAll([id], id) == [];
  }

  /** For a present id, two toggles drop every occurrence and re-append it
      once at the end: the ledger's order is not restored in general. */
  lemma ToggleTwicePresent(ledger: seq<int>, id: int)
    requires id in ledger
    ensures Toggle(Toggle(ledger, id), id) == RemoveAll(ledger, id) + [id]
  {
  }

  /** A concrete ledger whose order two toggles do not restore. */
  lemma ToggleTwiceReorders()
    ensures Toggle(Toggle([2, 5], 2), 2) == [5, 2]
  {
    assert 2 in [2, 5];
    ToggleTwicePresent([2, 5], 2);
    assert RemoveAll([2, 5], 2) == [5] by {
      assert [2, 5][1..] == [5];
      assert [5][1..] == [];
    }
  }

  /** Toggle keeps a ledger free of duplicate ids. */
  lemma ToggleKeepsNoDup(ledger: seq<int>, id: int)
    requires NoDup(ledger)
    ensures NoDup(Toggle(ledger, id))
  {
    if id in ledger {
      RemoveAllNoDup(ledger, id);
    }
  }

  /** Saving 2 then 5 in an empty ledger gives [2, 5]; removing 2 from
      [2, 5] leaves [5]. */
  lemma ToggleScenarios()
    ensures Toggle(Toggle([], 2), 5) == [2, 5]
    ensures Toggle([2, 5], 2) == [5]
  {
    assert [2, 5][1..] == [5];
    assert [5][1..] == [];
  }
}
