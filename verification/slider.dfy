/** The desktop slider's navigation state (DesktopEpisodeSlider.tsx): the
    tracked slide index and the swipe/drag gesture in progress. The slider
    renders one slide per episode, so slide `i` exists exactly when
    0 <= i < n for a list of n episodes. */
module Slider {
  import opened Types
  import opened Catalog
  import opened Selection

  /** The two gesture refs: whether a drag is in progress and where it
      started (`null` is `None`). */
  datatype Gesture = Gesture(active: bool, start: Option<int>)

  datatype SliderState = SliderState(index: int, gesture: Gesture)

  /** Minimum horizontal travel, in pixels, for a drag to count as a swipe. */
  const MinSwipeDistance: int := 50

  /** The mouse button that may start a drag. */
  const PrimaryButton: int := 0

  const NoGesture := Gesture(false, None)

  /** The index lies on an existing slide. */
  predicate InRange(st: SliderState, n: nat) {
    0 <= st.index < n
  }

  /** Initial index: where the initial episode's id sits in the list, or -1
      when it is absent. No gesture is in progress. */
  function Init(episodes: seq<Episode>, initial: Episode): (st: SliderState)
    ensures st.gesture == NoGesture
    ensures st.index == -1 <==> !HasId(episodes, initial.numero)
    ensures st.index != -1 ==>
      0 <= st.index < |episodes| && episodes[st.index].numero == initial.numero
    ensures forall j :: 0 <= j < st.index ==> episodes[j].numero != initial.numero
  {
    SliderState(FindIndex(episodes, initial.numero), NoGesture)
  }

  /** `scrollToEpisode`: moves to slide `i` only when that slide exists. */
  function ScrollTo(st: SliderState, n: nat, i: int): (r: SliderState)
    ensures 0 <= i < n ==> r.index == i
    ensures !(0 <= i < n) ==> r.index == st.index
    ensures r.gesture == st.gesture
    ensures InRange(st, n) ==> InRange(r, n)
  {
    if 0 <= i < n then st.(index := i) else st
  }

  /** `handleNext`: one slide forward unless already on the last one. */
  function Next(st: SliderState, n: nat): (r: SliderState)
    ensures st.index >= n - 1 ==> r == st
    ensures InRange(st, n) && st.index < n - 1 ==> r.index == st.index + 1
    ensures r.index == st.index || r.index == st.index + 1
    ensures r.gesture == st.gesture
    ensures InRange(st, n) ==> InRange(r, n)
  {
    if st.index < n - 1 then ScrollTo(st, n, st.index + 1) else st
  }

  /** `handlePrev`: one slide back unless already on the first one. */
  function Prev(st: SliderState, n: nat): (r: SliderState)
    ensures st.index <= 0 ==> r == st
    ensures InRange(st, n) && st.index > 0 ==> r.index == st.index - 1
    ensures r.index == st.index || r.index == st.index - 1
    ensures r.gesture == st.gesture
    ensures InRange(st, n) ==> InRange(r, n)
  {
    if st.index > 0 then ScrollTo(st, n, st.index - 1) else st
  }

  /** The "most recent" button: back to the first slide, when there is one. */
  function ToStart(st: SliderState, n: nat): (r: SliderState)
    ensures n > 0 ==> r.index == 0
    ensures n == 0 ==> r == st
    ensures r.gesture == st.gesture
  {
    ScrollTo(st, n, 0)
  }

  /** `handleRandomJump`: draws until the slide differs from the current one
      (when there is more than one) and scrolls there. */
  method RandomJump(st: SliderState, n: nat) returns (r: SliderState)
    ensures n >= 1 ==> InRange(r, n)
    ensures n > 1 ==> r.index != st.index
    ensures n == 1 ==> r.index == 0
    ensures n == 0 ==> r == st
    ensures r.gesture == st.gesture
  {
    var i := PickIndex(n, Some(st.index));
    r := ScrollTo(st, n, i);
  }

  /** `handleGestureStart`: records the start point and marks a drag. */
  function GestureStart(st: SliderState, x: int): (r: SliderState)
    ensures r.gesture.active && r.gesture.start == Some(x)
    ensures r.index == st.index
  {
    st.(gesture := Gesture(true, Some(x)))
  }

  /** A gesture is processed on release only when one is active with a
      recorded start point. */
  predicate Processable(g: Gesture) {
    g.active && g.start.Some?
  }

  /** `handleGestureEnd`: with distance = start - x, a distance above the
      threshold steps forward, one below minus the threshold steps back, and
      anything in between does not navigate; the gesture is then reset. */
  function GestureEnd(st: SliderState, n: nat, x: int): (r: SliderState)
    ensures !Processable(st.gesture) ==> r == st
    ensures Processable(st.gesture) ==> r.gesture == NoGesture
    ensures Processable(st.gesture) && st.gesture.start.value - x > MinSwipeDistance ==>
      r.index == Next(st, n).index
    ensures Processable(st.gesture) && st.gesture.start.value - x < -MinSwipeDistance ==>
      r.index == Prev(st, n).index
    ensures Processable(st.gesture) && -MinSwipeDistance <= st.gesture.start.value - x <= MinSwipeDistance ==>
      r.index == st.index
    ensures InRange(st, n) ==> InRange(r, n)
  {
    if !Processable(st.gesture) then st
    else
      var distance := st.gesture.start.value - x;
      var moved :=
        if distance > MinSwipeDistance then Next(st, n)
        else if distance < -MinSwipeDistance then Prev(st, n)
        else st;
      moved.(gesture := NoGesture)
  }

  /** `onMouseDown`: only the primary button starts a drag. */
  function MouseDown(st: SliderState, button: int, x: int): (r: SliderState)
    ensures button != PrimaryButton ==> r == st
    ensures button == PrimaryButton ==> r.gesture == Gesture(true, Some(x)) && r.index == st.index
  {
    if button != PrimaryButton then st else GestureStart(st, x)
  }

  /** `onMouseLeave`: ends the drag only when one is active. */
  function MouseLeave(st: SliderState, n: nat, x: int): (r: SliderState)
    ensures !st.gesture.active ==> r == st
    ensures st.gesture.active && st.gesture.start.Some? ==> r.gesture == NoGesture
    ensures InRange(st, n) ==> InRange(r, n)
  {
    if st.gesture.active then GestureEnd(st, n, x) else st
  }

  /** The activity guard of `onMouseLeave` is redundant: ending an inactive
      gesture is already a no-op. */
  lemma MouseLeaveIsGestureEnd(st: SliderState, n: nat, x: int)
    ensures MouseLeave(st, n, x) == GestureEnd(st, n, x)
  {
  }

  /** The user inputs the slider reacts to. `Jump(i)` is a scroll to slide
      `i`: the "most recent" button (i = 0) or a random jump's draw. Touch
      start and end go straight to the gesture handlers, like mouse up. */
  datatype Event =
    | NextClick
    | PrevClick
    | Jump(target: int)
    | MouseDownAt(button: int, x: int)
    | MouseUpAt(x: int)
    | MouseLeaveAt(x: int)
    | TouchStartAt(x: int)
    | TouchEndAt(x: int)

  /** The handler each input is wired to: touch start and a primary mouse
      down start a gesture without moving; mouse up, touch end and mouse
      leave end an active gesture and otherwise do nothing; no input moves
      the index off the slides. */
  function Step(st: SliderState, n: nat, e: Event): (r: SliderState)
    ensures InRange(st, n) ==> InRange(r, n)
    ensures e.MouseDownAt? || e.TouchStartAt? ==> r.index == st.index
    ensures e.TouchStartAt? ==> r.gesture == Gesture(true, Some(e.x))
    ensures e.MouseDownAt? && e.button == PrimaryButton ==> r.gesture == Gesture(true, Some(e.x))
    ensures e.MouseDownAt? && e.button != PrimaryButton ==> r == st
    ensures (e.MouseUpAt? || e.TouchEndAt? || e.MouseLeaveAt?) && Processable(st.gesture) ==>
      r == GestureEnd(st, n, e.x) && r.gesture == NoGesture
    ensures (e.MouseUpAt? || e.TouchEndAt? || e.MouseLeaveAt?) && !Processable(st.gesture) ==> r == st
  {
    match e
    case NextClick => Next(st, n)
    case PrevClick => Prev(st, n)
    case Jump(i) => ScrollTo(st, n, i)
    case MouseDownAt(b, x) => MouseDown(st, b, x)
    case MouseUpAt(x) => GestureEnd(st, n, x)
    case MouseLeaveAt(x) => MouseLeave(st, n, x)
    case TouchStartAt(x) => GestureStart(st, x)
    case TouchEndAt(x) => GestureEnd(st, n, x)
  }

  function Run(st: SliderState, n: nat, events: seq<Event>): SliderState
    decreases |events|
  {
    if |events| == 0 then st else Run(Step(st, n, events[0]), n, events[1..])
  }

  /** Starting on an existing slide, no sequence of inputs can move the
      index off the slides. */
  lemma {:induction false} RunStaysInRange(st: SliderState, n: nat, events: seq<Event>)
    requires InRange(st, n)
    ensures InRange(Run(st, n, events), n)
    decreases |events|
  {
    if |events| > 0 {
      var next := Step(st, n, events[0]);
      RunStaysInRange(next, n, events[1..]);
    }
  }
}
