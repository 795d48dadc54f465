/** Look-ups of an episode by its `numero` in an episode list:
    `Array.prototype.findIndex` and `Array.prototype.find` with the
    predicate `ep => ep.numero === id`. */
module Catalog {
  import opened Types

  /** Whether some episode of the list carries `id`. */
  ghost predicate HasId(catalog: seq<Episode>, id: int) {
    exists i :: 0 <= i < |catalog| && catalog[i].numero == id
  }

  /** Position of the first episode whose `numero` is `id`, or -1. */
  function FindIndex(catalog: seq<Episode>, id: int): (r: int)
    ensures r == -1 <==> !HasId(catalog, id)
    ensures r != -1 ==> 0 <= r < |catalog| && catalog[r].numero == id
    ensures forall j :: 0 <= j < r ==> catalog[j].numero != id
  {
    if |catalog| == 0 then -1
    else if catalog[0].numero == id then 0
    else
      var k := FindIndex(catalog[1..], id);
      assert HasId(catalog, id) ==> HasId(catalog[1..], id) by {
        if HasId(catalog, id) {
          var i :| 0 <= i < |catalog| && catalog[i].numero == id;
          assert catalog[1..][i - 1].numero == id;
        }
      }
      if k == -1 then -1 else k + 1
  }

  /** The first episode whose `numero` is `id`, if any. */
  function Find(catalog: seq<Episode>, id: int): (r: Option<Episode>)
    ensures r.Some? <==> HasId(catalog, id)
    ensures r.Some? ==> r.value in catalog && r.value.numero == id
  {
    if |catalog| == 0 then None
    else if catalog[0].numero == id then Some(catalog[0])
    else
      assert HasId(catalog, id) ==> HasId(catalog[1..], id) by {
        if HasId(catalog, id) {
          var i :| 0 <= i < |catalog| && catalog[i].numero == id;
          assert catalog[1..][i - 1].numero == id;
        }
      }
      Find(catalog[1..], id)
  }

  /** `find` returns exactly the element at the position `findIndex` reports. */
  lemma {:induction false} FindAgreesWithFindIndex(catalog: seq<Episode>, id: int)
    ensures Find(catalog, id) ==
      (if FindIndex(catalog, id) == -1 then None else Some(catalog[FindIndex(catalog, id)]))
    decreases |catalog|
  {
    if |catalog| > 0 && catalog[0].numero != id {
      FindAgreesWithFindIndex(catalog[1..], id);
    }
  }
}
