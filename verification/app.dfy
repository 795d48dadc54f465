/** The top-level view-state controller of App.tsx: the screen phase
    (`gameState`), the modal overlay (`modalView`), the selected episode,
    the index of the last random pick and the bookmark ledger with its
    persisted mirror. */
module App {
  import opened Types
  import opened Catalog
  import opened Bookmarks
  import opened Selection
  import opened Seqs

  datatype GameState = Idle | Spinning | Result

  datatype ModalView = NoModal | SavedModal

  /** `stored` is the value last written to the persistent key-value store
      under the bookmark key (every write is taken to succeed); `saved` is
      the in-memory ledger. */
  datatype AppState = AppState(
    game: GameState,
    modal: ModalView,
    selected: Option<Episode>,
    previousIndex: Option<int>,
    saved: seq<int>,
    stored: seq<int>)

  /** The spin timer scheduled by a random request. Its callback closes over
      the `previousIndex` of the render in which the request was made. */
  datatype PendingSpin = PendingSpin(capturedPrevious: Option<int>)

  /** What a random request does: the new state and, unless the request was
      answered in place, the timer it scheduled. */
  datatype RandomOutcome = RandomOutcome(state: AppState, timer: Option<PendingSpin>)

  /** State on mount, once the ledger has been hydrated from storage. */
  function Initial(hydrated: seq<int>): (s: AppState)
    ensures s.game == Idle && s.modal == NoModal
    ensures s.selected.None? && s.previousIndex.None?
    ensures s.saved == hydrated && s.stored == hydrated
  {
    AppState(Idle, NoModal, None, None, hydrated, hydrated)
  }

  /** `handleRandomEpisode`. In the result phase of the compact layout the
      request only scrolls the feed to a random section, which changes no
      application state. Otherwise the modal closes, the phase becomes
      spinning and the spin timer is scheduled. */
  function HandleRandomEpisode(s: AppState, isMobile: bool): (r: RandomOutcome)
    ensures s.game == Result && isMobile ==> r.state == s && r.timer.None?
    ensures !(s.game == Result && isMobile) ==>
      && r.state.game == Spinning
      && r.state.modal == NoModal
      && r.state.selected == s.selected
      && r.state.previousIndex == s.previousIndex
      && r.state.saved == s.saved
      && r.state.stored == s.stored
      && r.timer == Some(PendingSpin(s.previousIndex))
  {
    if s.game == Result && isMobile then RandomOutcome(s, None)
    else RandomOutcome(s.(modal := NoModal, game := Spinning), Some(PendingSpin(s.previousIndex)))
  }

  /** The state update at the end of the spin timer for a drawn index. An
      index outside the catalog selects `undefined`, which is `None` here. */
  function ResolveSpin(s: AppState, catalog: seq<Episode>, i: int): (r: AppState)
    ensures r.game == Result && r.previousIndex == Some(i)
    ensures 0 <= i < |catalog| ==> r.selected == Some(catalog[i])
    ensures !(0 <= i < |catalog|) ==> r.selected.None?
    ensures r.modal == s.modal && r.saved == s.saved && r.stored == s.stored
  {
    var chosen := if 0 <= i < |catalog| then Some(catalog[i]) else None;
    s.(previousIndex := Some(i), selected := chosen, game := Result)
  }

  /** The spin timer callback: draw until the index differs from the
      captured previous index, then show the drawn episode. */
  method FireSpinTimer(s: AppState, catalog: seq<Episode>, timer: PendingSpin) returns (r: AppState)
    ensures r.game == Result && r.previousIndex.Some?
    ensures |catalog| >= 1 ==>
      0 <= r.previousIndex.value < |catalog| && r.selected == Some(catalog[r.previousIndex.value])
    ensures |catalog| <= 1 ==> r.previousIndex == Some(0)
    ensures |catalog| == 0 ==> r.selected.None?
    ensures |catalog| > 1 && timer.capturedPrevious.Some? ==>
      r.previousIndex.value != timer.capturedPrevious.value
    ensures r.modal == s.modal && r.saved == s.saved && r.stored == s.stored
    ensures Invariant(s, catalog) ==> Invariant(r, catalog)
  {
    var i := PickIndex(|catalog|, timer.capturedPrevious);
    r := ResolveSpin(s, catalog, i);
  }

  /** With unique ids and at least two episodes, two consecutive spins never
      show the same episode: the second draw excludes the first's index. */
  lemma ConsecutiveSpinsDiffer(catalog: seq<Episode>, p: int, i: int)
    requires UniqueIds(catalog) && |catalog| >= 2
    requires 0 <= p < |catalog|
    requires ValidDraw(|catalog|, Some(p), i)
    ensures 0 <= i < |catalog| && catalog[i].numero != catalog[p].numero
  {
    if i < p {
      assert catalog[i].numero != catalog[p].numero;
    } else {
      assert catalog[p].numero != catalog[i].numero;
    }
  }

  /** `handleToggleSave`: toggles the id in the latest ledger and writes the
      resulting list to storage. */
  function HandleToggleSave(s: AppState, id: int): (r: AppState)
    ensures r.saved == Toggle(s.saved, id) && r.stored == r.saved
    ensures id in r.saved <==> id !in s.saved
    ensures r.game == s.game && r.modal == s.modal
    ensures r.selected == s.selected && r.previousIndex == s.previousIndex
  {
    var updated := Toggle(s.saved, id);
    s.(saved := updated, stored := updated)
  }

  /** `handleClose`: back to the start screen with no modal. The selected
      episode is kept. */
  function HandleClose(s: AppState): (r: AppState)
    ensures r.game == Idle && r.modal == NoModal
    ensures r.selected == s.selected && r.previousIndex == s.previousIndex
    ensures r.saved == s.saved && r.stored == s.stored
  {
    s.(modal := NoModal, game := Idle)
  }

  /** `handleOpenSaved`: shows the saved-collection modal over any phase. */
  function HandleOpenSaved(s: AppState): (r: AppState)
    ensures r.modal == SavedModal
    ensures r.game == s.game && r.selected == s.selected && r.previousIndex == s.previousIndex
    ensures r.saved == s.saved && r.stored == s.stored
  {
    s.(modal := SavedModal)
  }

  /** The modal's own close callback: hides the modal, nothing else. */
  function CloseSavedModal(s: AppState): (r: AppState)
    ensures r.modal == NoModal
    ensures r.game == s.game && r.selected == s.selected && r.previousIndex == s.previousIndex
    ensures r.saved == s.saved && r.stored == s.stored
  {
    s.(modal := NoModal)
  }

  /** `handleSelectSavedEpisode`: an id found in the catalog jumps straight
      to the result phase showing that episode; an unknown id changes
      nothing. The previous-pick index is not touched. */
  function HandleSelectSavedEpisode(s: AppState, catalog: seq<Episode>, id: int): (r: AppState)
    ensures HasId(catalog, id) ==>
      && r.game == Result && r.modal == NoModal
      && r.selected.Some? && r.selected.value in catalog && r.selected.value.numero == id
      && r.previousIndex == s.previousIndex && r.saved == s.saved && r.stored == s.stored
    ensures !HasId(catalog, id) ==> r == s
  {
    match Find(catalog, id)
    case Some(episode) => s.(selected := Some(episode), modal := NoModal, game := Result)
    case None => s
  }

  /** The episode chosen from the saved list is the first catalog entry
      carrying that id. */
  lemma SelectSavedPicksFirstMatch(s: AppState, catalog: seq<Episode>, id: int)
    requires HasId(catalog, id)
    ensures HandleSelectSavedEpisode(s, catalog, id).selected == Some(catalog[FindIndex(catalog, id)])
  {
    FindAgreesWithFindIndex(catalog, id);
  }

  /** What every handler keeps true: storage mirrors the ledger, the ledger
      holds each id at most once, a selected episode comes from the catalog,
      and the result phase of a non-empty catalog always shows one. */
  ghost predicate Invariant(s: AppState, catalog: seq<Episode>) {
    && s.stored == s.saved
    && NoDup(s.saved)
    && (s.selected.Some? ==> s.selected.value in catalog)
    && (s.game == Result && |catalog| > 0 ==> s.selected.Some?)
  }

  /** Mounting with a duplicate-free ledger establishes the invariant. */
  lemma InitialInvariant(hydrated: seq<int>, catalog: seq<Episode>)
    requires NoDup(hydrated)
    ensures Invariant(Initial(hydrated), catalog)
  {
  }

  /** Every handler, and the spin timer resolving on any index the redraw
      loop can exit with (whatever index it excluded), preserves the
      invariant. */
  lemma HandlersPreserveInvariant(s: AppState, catalog: seq<Episode>, id: int, isMobile: bool, i: int)
    requires Invariant(s, catalog)
    requires ValidDraw(|catalog|, None, i)
    ensures Invariant(HandleRandomEpisode(s, isMobile).state, catalog)
    ensures Invariant(ResolveSpin(s, catalog, i), catalog)
    ensures Invariant(HandleToggleSave(s, id), catalog)
    ensures Invariant(HandleClose(s), catalog)
    ensures Invariant(HandleOpenSaved(s), catalog)
    ensures Invariant(CloseSavedModal(s), catalog)
    ensures Invariant(HandleSelectSavedEpisode(s, catalog, id), catalog)
  {
    ToggleKeepsNoDup(s.saved, id);
  }
}
