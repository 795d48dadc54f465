/** The redraw loop behind every random pick. The source writes it twice,
    in the spin timer of App.tsx (excluding the previous pick) and in the
    random jump of the desktop slider (excluding the current slide); both
    copies are this one definition: draw
    `Math.floor(Math.random() * n)` until the index differs from an excluded
    one, the exclusion applying only when there is more than one episode.
    The random source is a nondeterministic choice. */
module Selection {
  import opened Types

  /** The exit condition of the redraw loop: with more than one episode the
      drawn index must differ from the excluded one. An index drawn as
      `Math.floor(Math.random() * n)` lies in [0, n) when n >= 1 and is 0
      when n == 0. */
  predicate ValidDraw(n: nat, excluded: Option<int>, i: int) {
    && (if n == 0 then i == 0 else 0 <= i < n)
    && !(n > 1 && excluded == Some(i))
  }

  /** The redraw loop of the spin timer and of the slider's random jump:
      an index in range that avoids `excluded` when there is a choice. */
  method PickIndex(n: nat, excluded: Option<int>) returns (i: int)
    ensures n >= 1 ==> 0 <= i < n
    ensures n <= 1 ==> i == 0
    ensures n > 1 && excluded.Some? ==> i != excluded.value
    ensures ValidDraw(n, excluded, i)
  {
    if n == 0 {
      i := 0;
    } else if n == 1 {
      i := 0;
    } else {
      assert ValidDraw(n, excluded, 0) || ValidDraw(n, excluded, 1);
      i :| ValidDraw(n, excluded, i);
      assert ValidDraw(n, excluded, i);
    }
  }
}
