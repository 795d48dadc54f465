/** The wide layout as a whole: the application state together with the
    slider, which is mounted while a result is shown and keeps its own
    index for as long as it stays mounted (its index is initialised from
    the selected episode on mount only). */
module DesktopView {
  import opened Types
  import opened Catalog
  import opened App
  import opened Slider

  /** The application state and, when mounted, the slider's state. */
  datatype Screen = Screen(app: AppState, slider: Option<SliderState>)

  /** The wide layout shows the slider exactly in the result phase with a
      selected episode. */
  predicate SliderShown(app: AppState) {
    app.game == Result && app.selected.Some?
  }

  /** The slider after a re-render: unmounted when not shown, initialised
      from the selected episode when it is newly shown, and otherwise kept
      as it was, whatever the selected episode has become. */
  function Reconcile(app: AppState, previous: Option<SliderState>, sorted: seq<Episode>): (r: Option<SliderState>)
    ensures r.Some? <==> SliderShown(app)
    ensures SliderShown(app) && previous.Some? ==> r == previous
    ensures SliderShown(app) && previous.None? ==>
      r.value.index == FindIndex(sorted, app.selected.value.numero) && r.value.gesture == NoGesture
  {
    if !SliderShown(app) then None
    else if previous.Some? then previous
    else Some(Init(sorted, app.selected.value))
  }

  /** Choosing an episode in the saved-collection modal, as the code does
      it: the application state changes and the slider is reconciled. A
      slider that was already shown keeps its index. */
  function SelectSavedAsWritten(scr: Screen, catalog: seq<Episode>, sorted: seq<Episode>, id: int): (r: Screen)
    ensures !HasId(catalog, id) ==> r == Screen(scr.app, Reconcile(scr.app, scr.slider, sorted))
    ensures HasId(catalog, id) ==> r.app.selected.Some? && r.app.selected.value.numero == id
    ensures HasId(catalog, id) && scr.slider.Some? ==> r.slider == scr.slider
  {
    var app := HandleSelectSavedEpisode(scr.app, catalog, id);
    Screen(app, Reconcile(app, scr.slider, sorted))
  }

  /** A catalog entry with the given id and empty display fields. */
  function Sample(id: int): Episode {
    Episode(id, "", "", "", "", "", "", [], "", Links("", None, None, None, None, None, None), "")
  }

  /** Two episodes; the slider shows the first and the modal is open over
      it. Choosing the second in the modal selects it but the slider still
      shows the first. */
  lemma SelectSavedAsWrittenShowsStaleSlide()
    ensures
      var catalog := [Sample(1), Sample(2)];
      var before := Screen(AppState(Result, SavedModal, Some(Sample(1)), Some(0), [2], [2]),
                           Some(SliderState(0, NoGesture)));
      var after := SelectSavedAsWritten(before, catalog, catalog, 2);
      && after.app.selected == Some(Sample(2))
      && after.slider == Some(SliderState(0, NoGesture))
      && catalog[after.slider.value.index].numero != 2
  {
    var catalog := [Sample(1), Sample(2)];
    assert catalog[1].numero == 2;
    assert Find(catalog, 2) == Some(Sample(2)) by {
      assert catalog[1..] == [Sample(2)];
    }
  }

  /** The selection the modal evidently intends: a slider already shown
      scrolls to the chosen episode, and a newly shown one starts there. */
  function SelectSavedCorrected(scr: Screen, catalog: seq<Episode>, sorted: seq<Episode>, id: int): (r: Screen)
    ensures !HasId(catalog, id) ==> r == Screen(scr.app, Reconcile(scr.app, scr.slider, sorted))
    ensures HasId(catalog, id) ==>
      && r.app == HandleSelectSavedEpisode(scr.app, catalog, id)
      && r.slider.Some?
    ensures HasId(catalog, id) && HasId(sorted, id) ==>
      0 <= r.slider.value.index < |sorted| && sorted[r.slider.value.index].numero == id
    ensures HasId(catalog, id) && scr.slider.Some? ==> r.slider.value.gesture == scr.slider.value.gesture
  {
    var app := HandleSelectSavedEpisode(scr.app, catalog, id);
    if Find(catalog, id).None? then Screen(app, Reconcile(app, scr.slider, sorted))
    else
      var target := FindIndex(sorted, id);
      match scr.slider
      case Some(st) => Screen(app, Some(ScrollTo(st, |sorted|, target)))
      case None => Screen(app, Reconcile(app, None, sorted))
  }

  /** On the sample above, the corrected selection shows the chosen
      episode. */
  lemma SelectSavedCorrectedShowsChosenSlide()
    ensures
      var catalog := [Sample(1), Sample(2)];
      var before := Screen(AppState(Result, SavedModal, Some(Sample(1)), Some(0), [2], [2]),
                           Some(SliderState(0, NoGesture)));
      var after := SelectSavedCorrected(before, catalog, catalog, 2);
      after.slider == Some(SliderState(1, NoGesture))
  {
    var catalog := [Sample(1), Sample(2)];
    assert catalog[1].numero == 2;
    assert HasId(catalog, 2);
    assert FindIndex(catalog, 2) == 1 by {
      assert catalog[1..] == [Sample(2)];
    }
  }
}
