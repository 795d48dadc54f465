/** The saved-collection overlay (SavedEpisodesModal.tsx): which catalog
    episodes it lists and in what order. */
module SavedModal {
  import opened Types
  import opened Seqs

  // ---------------------------------------------------------------------
  // Which episodes are listed
  // ---------------------------------------------------------------------

  /** `catalog.filter(ep => saved.includes(ep.numero))`. */
  function FilterSaved(catalog: seq<Episode>, saved: seq<int>): (r: seq<Episode>)
    ensures forall e :: e in r <==> e in catalog && e.numero in saved
    ensures Subsequence(r, catalog)
    ensures |r| <= |catalog|
  {
    if |catalog| == 0 then []
    else
      var rest := FilterSaved(catalog[1..], saved);
      if catalog[0].numero in saved then
        assert ([catalog[0]] + rest)[1..] == rest;
        [catalog[0]] + rest
      else
        assert forall e :: e in rest ==> e != catalog[0];
        rest
  }

  /** The sort key of the list: the position of the episode's id in the
      saved list (its first occurrence). A larger key means saved more
      recently. */
  function Recency(saved: seq<int>): (key: Episode -> int)
    ensures forall e :: key(e) == -1 <==> e.numero !in saved
    ensures forall e :: key(e) != -1 ==> 0 <= key(e) < |saved| && saved[key(e)] == e.numero
    ensures forall e, j :: 0 <= j < key(e) ==> saved[j] != e.numero
  {
    (e: Episode) => IndexOf(saved, e.numero)
  }

  /** Keys never increase from left to right. */
  ghost predicate SortedDesc(xs: seq<Episode>, key: Episode -> int) {
    forall i, j :: 0 <= i < j < |xs| ==> key(xs[i]) >= key(xs[j])
  }

  /** The elements of `xs` whose key is `k`, in their order in `xs`. */
  function WithKey(xs: seq<Episode>, key: Episode -> int, k: int): seq<Episode>
    decreases |xs|
  {
    if |xs| == 0 then []
    else (if key(xs[0]) == k then [xs[0]] else []) + WithKey(xs[1..], key, k)
  }

  /** Inserts `x` after every element whose key is at least its own, so
      equal keys keep their arrival order. */
  function Insert(x: Episode, ys: seq<Episode>, key: Episode -> int): (r: seq<Episode>)
    ensures multiset(r) == multiset(ys) + multiset{x}
    ensures |r| == |ys| + 1
    ensures r[0] == x || (|ys| > 0 && r[0] == ys[0])
    decreases |ys|
  {
    if |ys| == 0 then [x]
    else if key(ys[0]) >= key(x) then
      assert ys == [ys[0]] + ys[1..];
      [ys[0]] + Insert(x, ys[1..], key)
    else [x] + ys
  }

  /** Insertion into a sorted list keeps it sorted. */
  lemma {:induction false} InsertSorted(x: Episode, ys: seq<Episode>, key: Episode -> int)
    requires SortedDesc(ys, key)
    ensures SortedDesc(Insert(x, ys, key), key)
    decreases |ys|
  {
    if |ys| > 0 && key(ys[0]) >= key(x) {
      var tail := ys[1..];
      SortedTail(ys, key);
      InsertSorted(x, tail, key);
      var ins := Insert(x, tail, key);
      assert key(ys[0]) >= key(ins[0]) by {
        if |tail| > 0 && ins[0] == tail[0] {
          assert tail[0] == ys[1];
        }
      }
      SortedCons(ys[0], ins, key);
    }
  }

  lemma SortedTail(ys: seq<Episode>, key: Episode -> int)
    requires |ys| > 0 && SortedDesc(ys, key)
    ensures SortedDesc(ys[1..], key)
  {
    var tail := ys[1..];
    forall i, j | 0 <= i < j < |tail|
      ensures key(tail[i]) >= key(tail[j])
    {
      assert tail[i] == ys[i + 1] && tail[j] == ys[j + 1];
    }
  }

  /** A head whose key dominates the first key of a sorted list extends it
      to a sorted list. */
  lemma SortedCons(h: Episode, ys: seq<Episode>, key: Episode -> int)
    requires |ys| > 0 && SortedDesc(ys, key)
    requires key(h) >= key(ys[0])
    ensures SortedDesc([h] + ys, key)
  {
    var r := [h] + ys;
    forall i, j | 0 <= i < j < |r|
      ensures key(r[i]) >= key(r[j])
    {
      if i == 0 {
        assert r[j] == ys[j - 1];
        if j > 1 {
          assert key(ys[0]) >= key(ys[j - 1]);
        }
      } else {
        assert r[i] == ys[i - 1] && r[j] == ys[j - 1];
      }
    }
  }

  /** The stable sort `sort((a, b) => key(b) - key(a))`, written as an
      insertion sort that takes the elements in input order. */
  function SortByKeyDesc(xs: seq<Episode>, key: Episode -> int): (r: seq<Episode>)
    ensures multiset(r) == multiset(xs)
    ensures |r| == |xs|
    decreases |xs|
  {
    if |xs| == 0 then []
    else
      var init := xs[..|xs| - 1];
      assert xs == init + [xs[|xs| - 1]];
      Insert(xs[|xs| - 1], SortByKeyDesc(init, key), key)
  }

  /** The sort orders by decreasing key. */
  lemma {:induction false} SortIsSorted(xs: seq<Episode>, key: Episode -> int)
    ensures SortedDesc(SortByKeyDesc(xs, key), key)
    decreases |xs|
  {
    if |xs| > 0 {
      var init := xs[..|xs| - 1];
      SortIsSorted(init, key);
      InsertSorted(xs[|xs| - 1], SortByKeyDesc(init, key), key);
    }
  }

  lemma {:induction false} WithKeyAppend(a: seq<Episode>, b: seq<Episode>, key: Episode -> int, k: int)
    ensures WithKey(a + b, key, k) == WithKey(a, key, k) + WithKey(b, key, k)
    decreases |a|
  {
    if |a| == 0 {
      assert a + b == b;
    } else {
      assert (a + b)[0] == a[0];
      assert (a + b)[1..] == a[1..] + b;
      WithKeyAppend(a[1..], b, key, k);
    }
  }

  lemma {:induction false} WithKeyNone(ys: seq<Episode>, key: Episode -> int, k: int)
    requires forall i :: 0 <= i < |ys| ==> key(ys[i]) < k
    ensures WithKey(ys, key, k) == []
    decreases |ys|
  {
    if |ys| > 0 {
      assert forall i :: 0 <= i < |ys[1..]| ==> ys[1..][i] == ys[i + 1];
      WithKeyNone(ys[1..], key, k);
    }
  }

  lemma WithKeyCons(h: Episode, ys: seq<Episode>, key: Episode -> int, k: int)
    ensures WithKey([h] + ys, key, k) == (if key(h) == k then [h] else []) + WithKey(ys, key, k)
  {
    var r := [h] + ys;
    assert r[0] == h && r[1..] == ys;
  }

  /** Inserting into a sorted list places `x` after every element that
      shares its key. */
  lemma {:induction false} InsertWithKey(x: Episode, ys: seq<Episode>, key: Episode -> int, k: int)
    requires SortedDesc(ys, key)
    ensures WithKey(Insert(x, ys, key), key, k) ==
      WithKey(ys, key, k) + (if key(x) == k then [x] else [])
    decreases |ys|
  {
    var own := if key(x) == k then [x] else [];
    if |ys| == 0 {
      WithKeyCons(x, [], key, k);
      assert [x] + [] == [x];
    } else if key(ys[0]) >= key(x) {
      SortedTail(ys, key);
      InsertWithKey(x, ys[1..], key, k);
      InsertWithKeyLower(x, ys, key, k);
    } else {
      WithKeyCons(x, ys, key, k);
      if key(x) == k {
        InsertWithKeyHigher(x, ys, key, k);
      }
    }
  }

  /** The step of `InsertWithKey` where `x` goes after the head: the head's
      contribution stays in front of the tail's. */
  lemma InsertWithKeyLower(x: Episode, ys: seq<Episode>, key: Episode -> int, k: int)
    requires |ys| > 0 && key(ys[0]) >= key(x)
    requires WithKey(Insert(x, ys[1..], key), key, k) ==
      WithKey(ys[1..], key, k) + (if key(x) == k then [x] else [])
    ensures WithKey(Insert(x, ys, key), key, k) ==
      WithKey(ys, key, k) + (if key(x) == k then [x] else [])
  {
    var tail := ys[1..];
    var own := if key(x) == k then [x] else [];
    var head := if key(ys[0]) == k then [ys[0]] else [];
    var inserted := Insert(x, tail, key);
    assert Insert(x, ys, key) == [ys[0]] + inserted;
    WithKeyCons(ys[0], inserted, key, k);
    var rest := WithKey(tail, key, k);
    assert WithKey(ys, key, k) == head + rest;
    assert WithKey(inserted, key, k) == rest + own;
    AppendAssoc(head, rest, own);
  }

  lemma AppendAssoc(a: seq<Episode>, b: seq<Episode>, c: seq<Episode>)
    ensures a + (b + c) == (a + b) + c
  {
  }

  /** When `x` outranks the head of a sorted list, no element of the list
      shares its key. */
  lemma InsertWithKeyHigher(x: Episode, ys: seq<Episode>, key: Episode -> int, k: int)
    requires SortedDesc(ys, key) && |ys| > 0
    requires key(ys[0]) < key(x) == k
    ensures WithKey(ys, key, k) == []
  {
    forall i | 0 <= i < |ys|
      ensures key(ys[i]) < k
    {
      if i > 0 {
        assert key(ys[0]) >= key(ys[i]);
      }
    }
    WithKeyNone(ys, key, k);
  }

  /** The sort is stable: elements sharing a key keep their input order. */
  lemma {:induction false} SortIsStable(xs: seq<Episode>, key: Episode -> int, k: int)
    ensures WithKey(SortByKeyDesc(xs, key), key, k) == WithKey(xs, key, k)
    decreases |xs|
  {
    if |xs| > 0 {
      var init := xs[..|xs| - 1];
      var sortedInit := SortByKeyDesc(init, key);
      SortIsStable(init, key, k);
      SortIsSorted(init, key);
      assert SortByKeyDesc(xs, key) == Insert(xs[|xs| - 1], sortedInit, key);
      SortIsStableStep(xs, sortedInit, key, k);
    }
  }

  /** One insertion step of the stability proof: inserting the last
      element into a sorted, stable arrangement of the others gives a
      stable arrangement of the whole list. */
  lemma SortIsStableStep(xs: seq<Episode>, sortedInit: seq<Episode>, key: Episode -> int, k: int)
    requires |xs| > 0
    requires SortedDesc(sortedInit, key)
    requires WithKey(sortedInit, key, k) == WithKey(xs[..|xs| - 1], key, k)
    ensures WithKey(Insert(xs[|xs| - 1], sortedInit, key), key, k) == WithKey(xs, key, k)
  {
    InsertWithKey(xs[|xs| - 1], sortedInit, key, k);
    StableTail(xs, key, k);
  }

  /** Peeling the last element off a list. */
  lemma StableTail(xs: seq<Episode>, key: Episode -> int, k: int)
    requires |xs| > 0
    ensures WithKey(xs, key, k) == WithKey(xs[..|xs| - 1], key, k) + (if key(xs[|xs| - 1]) == k then [xs[|xs| - 1]] else [])
  {
    var init := xs[..|xs| - 1];
    var last := xs[|xs| - 1];
    assert xs == init + [last];
    WithKeyCons(last, [], key, k);
    assert [last] + [] == [last];
    WithKeyAppend(init, [last], key, k);
  }

  /** The listed episodes: the saved ones of the catalog, most recently
      saved first. */
  function Displayed(catalog: seq<Episode>, saved: seq<int>): (r: seq<Episode>)
    ensures forall e :: e in r <==> e in catalog && e.numero in saved
    ensures multiset(r) == multiset(FilterSaved(catalog, saved))
  {
    var filtered := FilterSaved(catalog, saved);
    var r := SortByKeyDesc(filtered, Recency(saved));
    assert forall e :: e in r <==> e in filtered by {
      forall e
        ensures e in r <==> e in filtered
      {
        assert e in r <==> e in multiset(r);
        assert e in filtered <==> e in multiset(filtered);
      }
    }
    r
  }

  /** The list is ordered by decreasing position in the saved list. */
  lemma DisplayedSorted(catalog: seq<Episode>, saved: seq<int>)
    ensures forall i, j :: 0 <= i < j < |Displayed(catalog, saved)| ==>
      IndexOf(saved, Displayed(catalog, saved)[i].numero) >= IndexOf(saved, Displayed(catalog, saved)[j].numero)
  {
    var d := Displayed(catalog, saved);
    SortIsSorted(FilterSaved(catalog, saved), Recency(saved));
    forall i, j | 0 <= i < j < |d|
      ensures IndexOf(saved, d[i].numero) >= IndexOf(saved, d[j].numero)
    {
      assert Recency(saved)(d[i]) >= Recency(saved)(d[j]);
    }
  }

  /** Episodes listed under the same saved position keep their catalog
      order. */
  lemma DisplayedStable(catalog: seq<Episode>, saved: seq<int>, k: int)
    ensures WithKey(Displayed(catalog, saved), Recency(saved), k) ==
      WithKey(FilterSaved(catalog, saved), Recency(saved), k)
  {
    SortIsStable(FilterSaved(catalog, saved), Recency(saved), k);
  }

  /** The most recently saved episode comes first: an episode saved at a
      strictly later position is listed strictly earlier. */
  lemma DisplayedMostRecentFirst(catalog: seq<Episode>, saved: seq<int>)
    ensures forall i, j ::
      (0 <= i < |Displayed(catalog, saved)| && 0 <= j < |Displayed(catalog, saved)| &&
       IndexOf(saved, Displayed(catalog, saved)[i].numero) > IndexOf(saved, Displayed(catalog, saved)[j].numero))
      ==> i < j
  {
    var d := Displayed(catalog, saved);
    SortIsSorted(FilterSaved(catalog, saved), Recency(saved));
    forall i, j | 0 <= i < |d| && 0 <= j < |d| && IndexOf(saved, d[i].numero) > IndexOf(saved, d[j].numero)
      ensures i < j
    {
      assert Recency(saved)(d[i]) > Recency(saved)(d[j]);
      SortedDescOrder(d, Recency(saved), i, j);
    }
  }

  /** In a list sorted by decreasing key, a strictly larger key comes
      strictly earlier. */
  lemma SortedDescOrder(xs: seq<Episode>, key: Episode -> int, i: int, j: int)
    requires SortedDesc(xs, key)
    requires 0 <= i < |xs| && 0 <= j < |xs| && key(xs[i]) > key(xs[j])
    ensures i < j
  {
  }

  // ---------------------------------------------------------------------
  // How many episodes are listed
  // ---------------------------------------------------------------------

  ghost function Elems(s: seq<int>): set<int> {
    set x | x in s
  }

  lemma {:induction false} ElemsBound(s: seq<int>)
    ensures |Elems(s)| <= |s|
    decreases |s|
  {
    if |s| > 0 {
      ElemsBound(s[1..]);
      assert Elems(s) == {s[0]} + Elems(s[1..]);
    }
  }

  /** With unique catalog ids, filtering by membership in a set of ids
      keeps at most as many episodes as the set has ids. */
  lemma {:induction false} FilterBound(catalog: seq<Episode>, saved: seq<int>, ids: set<int>)
    requires UniqueIds(catalog)
    requires forall i :: 0 <= i < |catalog| ==> (catalog[i].numero in saved ==> catalog[i].numero in ids)
    ensures |FilterSaved(catalog, saved)| <= |ids|
    decreases |catalog|
  {
    if |catalog| > 0 {
      var tail := catalog[1..];
      var id0 := catalog[0].numero;
      assert UniqueIds(tail) by {
        forall i, j | 0 <= i < j < |tail|
          ensures tail[i].numero != tail[j].numero
        {
          assert tail[i] == catalog[i + 1] && tail[j] == catalog[j + 1];
        }
      }
      if id0 in saved {
        forall i | 0 <= i < |tail|
          ensures tail[i].numero in saved ==> tail[i].numero in ids - {id0}
        {
          assert tail[i] == catalog[i + 1];
        }
        FilterBound(tail, saved, ids - {id0});
      } else {
        forall i | 0 <= i < |tail|
          ensures tail[i].numero in saved ==> tail[i].numero in ids
        {
          assert tail[i] == catalog[i + 1];
        }
        FilterBound(tail, saved, ids);
      }
    }
  }

  /** With unique catalog ids, no more episodes are listed than ids saved. */
  lemma DisplayedBound(catalog: seq<Episode>, saved: seq<int>)
    requires UniqueIds(catalog)
    ensures |Displayed(catalog, saved)| <= |saved|
  {
    var filtered := FilterSaved(catalog, saved);
    assert |Displayed(catalog, saved)| == |filtered| by {
      assert |multiset(Displayed(catalog, saved))| == |multiset(filtered)|;
    }
    FilterBound(catalog, saved, Elems(saved));
    ElemsBound(saved);
  }
}
