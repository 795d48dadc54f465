# Soluble(s) podcast explorer — a Dafny model of its view-state core

The Soluble(s) explorer is a single-page React application. It lets a listener
draw a random podcast episode behind a spinning reel, browse the catalog in a
slider (wide screens) or a feed (narrow screens), bookmark episodes, and share
the bookmarked selection by e-mail or clipboard. This project models the
application's state logic as pure Dafny functions and proves properties of it:

- the top-level controller of `App.tsx`: the phase (`idle`, `spinning`,
  `result`), the modal overlay, the selected episode, the index of the last
  random pick, the bookmark ledger and its persisted mirror;
- the redraw loop that the source writes twice, once in the spin timer
  (excluding the previous pick) and once in the slider's random jump
  (excluding the current slide); the model uses one definition for both,
  with randomness as a nondeterministic choice;
- the bookmark toggle rule, which uses `includes` and `filter`;
- the other JavaScript array methods the components use: `indexOf` for the
  saved-list sort, `find` when a saved episode is chosen, and `findIndex` for
  the slider's starting slide;
- the desktop slider's index and swipe/drag gesture state machine;
- the saved-collection overlay: which episodes it lists and in what order
  (a stable sort by recency of bookmarking), the text of the shared
  selection, the `mailto:` link, and the copy-button guard;
- the spinning reel: a shuffled prefix of at most 30 episodes, doubled so
  that the animation loops seamlessly;
- the platform-link row of an episode card, its share title and the parallax
  offset of its image;
- the wide layout as a whole, where the mounted slider keeps its own index
  (see "## Findings").

Modules follow the source files. `Types` holds the episode record.
`Seqs` and `Catalog` hold the array methods. `Bookmarks` and `Selection` hold
the toggle rule and the redraw loop. `App`, `Slider`, `SavedModal`,
`ShareText`, `Roulette` and `EpisodeCard` model the components, and
`DesktopView` composes the controller with the slider.

Four behaviours of the code are easy to get wrong:

- Toggling an already-saved id twice does not restore the ledger. The first
  toggle removes the id, and the second appends it at the end
  (`Bookmarks.ToggleTwicePresent`, `Bookmarks.ToggleTwiceReorders`).
- Closing the result view keeps the selected episode; only the phase and the
  modal change (`App.HandleClose`).
- The spin timer compares against the `previousIndex` captured when the spin
  was requested, not a later value (`App.PendingSpin`).
- The random pick draws from the unsorted catalog, while the slider and feed
  show the catalog sorted by date. The model therefore takes the two lists
  as separate inputs.

## Model

| member | source | states |
|---|---|---|
| Seqs.RemoveAll | App.tsx:88 | Filtering an id out of the ledger removes every occurrence of it and keeps every other id the same number of times, in order. |
| Seqs.RemoveAllNoDup | App.tsx:88 | Filtering a duplicate-free ledger leaves it duplicate-free. |
| Seqs.IndexOf | components/SavedEpisodesModal.tsx:21 | `indexOf` is -1 exactly when the value is absent; otherwise it is the first position holding the value. |
| Catalog.FindIndex | components/DesktopEpisodeSlider.tsx:24-26 | `findIndex` by id is -1 exactly when no episode has the id; otherwise it is the first episode carrying it. |
| Catalog.Find | App.tsx:104 | `find` by id returns an episode exactly when one carries the id, and that episode is in the catalog with that id. |
| Catalog.FindAgreesWithFindIndex | App.tsx:104 | `find` returns exactly the element at the position `findIndex` reports. |
| Bookmarks.Toggle | App.tsx:85-92 | The id is in the result iff it was not in the ledger; other ids keep their multiplicity; an absent id is appended after the unchanged ledger; removing keeps the order of the rest. |
| Bookmarks.ToggleTwiceAbsent | App.tsx:87-88 | For an id not yet saved, two toggles give back the original ledger. |
| Bookmarks.ToggleTwicePresent | App.tsx:87-88 | For a saved id, two toggles give the ledger without the id followed by the id: the id moves to the end. |
| Bookmarks.ToggleTwiceReorders | App.tsx:87-88 | Toggling 2 twice in [2, 5] gives [5, 2], so toggling is not an involution on saved ids. |
| Bookmarks.ToggleKeepsNoDup | App.tsx:87-88 | A duplicate-free ledger stays duplicate-free under toggling. |
| Bookmarks.ToggleScenarios | App.tsx:87-88 | Saving 2 then 5 in an empty ledger gives [2, 5]; removing 2 from [2, 5] leaves [5]. |
| Selection.PickIndex | App.tsx:72-75 | The redraw loop exits with an index in range (0 for an empty list) that differs from the excluded index whenever there are at least two episodes. |
| App.Initial | App.tsx:14-18 | On mount the phase is idle with no modal, selection or previous pick, and the ledger and storage hold the hydrated list. |
| App.HandleRandomEpisode | App.tsx:59-70 | In the narrow layout's result phase nothing changes and no timer starts; otherwise the phase becomes spinning, the modal closes, the rest is kept and a timer captures the current previous index. |
| App.ResolveSpin | App.tsx:77-81 | The timer's update records the drawn index and shows the episode at that index (none when it is out of range) in the result phase, leaving modal and ledger alone. |
| App.FireSpinTimer | App.tsx:71-82 | After the timer the phase is result. The episode shown is the one at the recorded index, which is in range for a non-empty catalog and differs from the captured index when there are two or more episodes. An empty catalog shows nothing and records 0. The timer keeps the controller invariant. |
| App.ConsecutiveSpinsDiffer | App.tsx:73-75 | With unique ids and two or more episodes, the episode drawn differs from the one at the previous index. |
| App.HandleToggleSave | App.tsx:85-92 | After a toggle, the ledger is the toggled ledger (the id removed or appended, every other bookmark kept) and storage equals it; the id's membership is flipped, and phase, modal and selection are unchanged. |
| App.HandleClose | App.tsx:94-97 | Closing goes to idle with no modal; selection, previous pick and ledger are kept. |
| App.HandleOpenSaved | App.tsx:99-101 | Opening shows the saved modal over any phase and changes nothing else. |
| App.CloseSavedModal | App.tsx:286 | The modal's own close callback hides the modal and changes nothing else. |
| App.HandleSelectSavedEpisode | App.tsx:103-116 | A known id moves to the result phase without a modal, showing a catalog episode with that id and keeping ledger and previous pick; an unknown id changes nothing. |
| App.SelectSavedPicksFirstMatch | App.tsx:104-106 | The episode shown is the first catalog entry carrying the chosen id. |
| App.InitialInvariant | App.tsx:14-18 | Mounting with a duplicate-free ledger establishes the controller invariant. |
| App.HandlersPreserveInvariant | App.tsx:59-116 | Every handler, and the spin timer on any in-range draw whatever index it excluded, keeps the invariant: storage mirrors the ledger, the ledger has no duplicates, a selected episode is in the catalog, and a non-empty catalog's result phase shows an episode. |
| Slider.Init | components/DesktopEpisodeSlider.tsx:24-31 | The initial index is -1 exactly when the initial episode's id is absent, else the first slide with that id; no gesture is active. |
| Slider.ScrollTo | components/DesktopEpisodeSlider.tsx:47-58 | The index moves to the target only when that slide exists, and it stays on an existing slide. |
| Slider.Next | components/DesktopEpisodeSlider.tsx:60-64 | The index moves one slide forward, except on the last slide, and never leaves the slides. |
| Slider.Prev | components/DesktopEpisodeSlider.tsx:66-70 | The index moves one slide back, except on the first slide, and never leaves the slides. |
| Slider.ToStart | components/DesktopEpisodeSlider.tsx:125 | The "most recent" button goes to slide 0 when there is a slide. |
| Slider.RandomJump | components/DesktopEpisodeSlider.tsx:72-78 | A random jump lands on an existing slide other than the current one when there are two or more. |
| Slider.GestureStart | components/DesktopEpisodeSlider.tsx:81-85 | Starting a gesture records the start point and marks it active without moving. |
| Slider.GestureEnd | components/DesktopEpisodeSlider.tsx:87-102 | Releasing an active gesture more than 50 px to the left goes to the next slide, more than 50 px to the right to the previous one, and otherwise stays; the gesture is reset; with no active gesture nothing happens. |
| Slider.MouseDown | components/DesktopEpisodeSlider.tsx:109-113 | Only the primary button starts a drag. |
| Slider.MouseLeave | components/DesktopEpisodeSlider.tsx:115-119 | Leaving the slider ends an active drag and does nothing otherwise. |
| Slider.MouseLeaveIsGestureEnd | components/DesktopEpisodeSlider.tsx:87-119 | The activity guard on mouse leave is redundant: it behaves as a plain gesture end. |
| Slider.RunStaysInRange | components/DesktopEpisodeSlider.tsx:47-119 | From an existing slide, no sequence of clicks, jumps, mouse or touch events moves the index off the slides. |
| Slider.Step | components/DesktopEpisodeSlider.tsx:104-119 | Touch start and a primary-button mouse down start a gesture at the pointer position without moving; another button does nothing; mouse up, touch end and mouse leave end an active gesture through the swipe rule and reset it, and do nothing when none is active; no input moves the index off the slides. |
| SavedModal.FilterSaved | components/SavedEpisodesModal.tsx:20 | The filter keeps exactly the catalog episodes whose id is saved, in catalog order. |
| SavedModal.Recency | components/SavedEpisodesModal.tsx:21 | The sort key is -1 for an episode whose id is not saved, otherwise the first ledger position holding its id. |
| SavedModal.SortByKeyDesc | components/SavedEpisodesModal.tsx:21 | The sort returns a permutation of its input (same elements with the same multiplicities). |
| SavedModal.SortIsSorted | components/SavedEpisodesModal.tsx:21 | The sort orders by decreasing key. |
| SavedModal.SortIsStable | components/SavedEpisodesModal.tsx:21 | The sort is stable: episodes with equal keys keep their input order. |
| SavedModal.Displayed | components/SavedEpisodesModal.tsx:19-22 | The listed episodes are exactly the catalog episodes whose id is saved, each as often as the filter yields it. |
| SavedModal.DisplayedSorted | components/SavedEpisodesModal.tsx:21 | Listed episodes appear by non-increasing position of their id in the ledger. |
| SavedModal.DisplayedStable | components/SavedEpisodesModal.tsx:19-22 | Listed episodes that share a ledger position keep their catalog order. |
| SavedModal.DisplayedMostRecentFirst | components/SavedEpisodesModal.tsx:21 | An episode bookmarked later is listed before one bookmarked earlier. |
| SavedModal.DisplayedBound | components/SavedEpisodesModal.tsx:19-22 | With unique catalog ids, no more episodes are listed than ids saved. |
| ShareText.Entry | components/SavedEpisodesModal.tsx:27 | An entry is a dash, the title, a newline with two-space indent, then the page URL. |
| ShareText.Entries | components/SavedEpisodesModal.tsx:27 | The `map` yields one entry per listed episode, in the same order. |
| ShareText.Join | components/SavedEpisodesModal.tsx:27 | `join` of no parts is empty and of one part is that part; otherwise the result opens with the first part and closes with the last (with `ShareText.JoinSnoc`, this fixes every join). |
| ShareText.JoinSnoc | components/SavedEpisodesModal.tsx:27 | Joining one more part appends the separator and that part to the join of the others. |
| ShareText.EpisodesBlock | components/SavedEpisodesModal.tsx:27 | The block is empty for no episodes and is the entry alone for one episode; otherwise it opens with the first listed episode's entry and closes with the last one's (with `ShareText.EpisodesBlockSnoc`, the entries joined by a blank line). |
| ShareText.EpisodesBlockSnoc | components/SavedEpisodesModal.tsx:27 | One more listed episode adds a blank line and its entry at the end of the block. |
| ShareText.SelectionText | components/SavedEpisodesModal.tsx:24-51 | The text is empty exactly when nothing is listed; otherwise it is the entries block framed by the fixed greeting and closing. |
| ShareText.MailtoHref | components/SavedEpisodesModal.tsx:53-57 | The link is empty exactly when nothing is listed; otherwise it carries the encoded subject and the encoded selection text. |
| ShareText.ShareTextsEmptyTogether | components/SavedEpisodesModal.tsx:24-57 | The selection text and the mail link are empty for the same bookmark lists. |
| ShareText.HandleCopy | components/SavedEpisodesModal.tsx:59-64 | An empty text copies nothing and leaves the flag; otherwise the text goes to the clipboard and the flag is raised. |
| ShareText.CopyWritesSelection | components/SavedEpisodesModal.tsx:59-62 | The copy button writes to the clipboard exactly when some saved episode is listed, and what it writes is the selection text. |
| Roulette.ReelOf | components/Roulette.tsx:16-17 | The reel is twice as long as min(30, n), its two halves are equal, and the first is the shuffled list's prefix. |
| Roulette.BuildReel | components/Roulette.tsx:10-18 | For any shuffle, the reel has 2·min(30, n) items made of catalog episodes, with equal halves; within one copy no episode appears more often than in the catalog. |
| Roulette.TotalHeight | components/Roulette.tsx:20-21 | The total height is a whole number of 480 px items, one per reel item. |
| Roulette.LoopOffset | components/Roulette.tsx:62 | The keyframe offset is exactly half the total height, with no rounding; for an even reel it is the height of half the items. |
| Roulette.SeamlessLoop | components/Roulette.tsx:60-63 | The animation scrolls exactly one copy, and each slot of the first copy shows the same episode as the slot one copy below. |
| EpisodeCard.KeepTruthyOrdered | components/EpisodeCard.tsx:59 | Filtering the platform list keeps its order. |
| EpisodeCard.KeepTruthy | components/EpisodeCard.tsx:59 | The filter keeps exactly the platforms whose URL is non-empty, each with its URL, and nothing else. |
| EpisodeCard.PlatformLinks | components/EpisodeCard.tsx:48-60 | The row lists exactly the platforms with a non-empty URL, each with that URL, in the fixed order, then the share button; it has 1 to 6 items. |
| EpisodeCard.WebsiteFirst | components/EpisodeCard.tsx:49-50 | A non-empty page URL makes the website link the first item. |
| EpisodeCard.ShareTitle | components/EpisodeCard.tsx:46 | The share title is the episode title followed by " - Soluble(s)". |
| EpisodeCard.ParallaxOffset | components/EpisodeCard.tsx:171-175 | Once the image height is known, the offset is the scroll position capped at that height; before that it does not change. |
| DesktopView.Reconcile | App.tsx:269-281 | The wide layout mounts the slider exactly in the result phase with a selection. A newly mounted slider starts at the selected episode; a slider already mounted keeps its state. |
| DesktopView.SelectSavedAsWritten | components/DesktopEpisodeSlider.tsx:24-26 | Choosing a saved episode while the slider is mounted selects it but leaves the slider's state unchanged. |
| DesktopView.SelectSavedAsWrittenShowsStaleSlide | components/DesktopEpisodeSlider.tsx:24-26 | With two episodes and the slider on the first, choosing the second selects it while the slider still shows the first. |
| DesktopView.SelectSavedCorrected | App.tsx:103-108 | With the corrected rule, after choosing a saved episode that the slider lists, the slider shows that episode. |
| DesktopView.SelectSavedCorrectedShowsChosenSlide | App.tsx:103-108 | On the same two episodes, the corrected rule moves the slider to the chosen one. |

## Left out

- Rendering, styling, CSS animation timing (`animationDuration`), focus handling and icons: they do not affect application state.
- Hydration from `localStorage`: JSON parsing and its error path are left out. `App.Initial` takes the already hydrated ledger as input.
- The storage write in `handleToggleSave` is taken to succeed. A throwing `setItem` (App.tsx:89), which the code does not catch, leaves the ledger unchanged and propagates out of the state update; that path is outside the model, so `App.HandleToggleSave` always ends with storage equal to the ledger.
- The layout flag `isMobile` and the `ResizeObserver` that updates it: the flag is an input of the operations that read it.
- The date sort of the catalog (`sortedEpisodes`): the sorted list is an input (`sorted` in `DesktopView`). Date parsing is outside the model.
- Timers: the spin timer is the value `App.PendingSpin`, fired by `App.FireSpinTimer`; the 3-second delay, the copy flag's 2-second reset and the feed's delayed scroll are not modelled.
- `Math.random` and the random comparator of the reel shuffle: both are nondeterministic choices. The shuffle is any permutation, which covers every order the comparator could yield.
- DOM scrolling: `scrollIntoView` in the narrow layout (result-phase random request, saved-episode selection, scroll-to-top) changes no application state.
- `encodeURIComponent` and the clipboard API are outside the model: the encoder is a function parameter, and the clipboard write is the `clipboard` output of `ShareText.HandleCopy`.
- The social share options of the episode card, its click-outside listener, its resize measurement and the copy-link button are left out. Only the platform row, the share title and the parallax update are modelled.
- The narrow-layout feed (EpisodeFeed.tsx), the scroll nudge, the AI chat bubble and the scroll-to-top button hold no state the controller depends on. They are not part of this model.
- JavaScript numbers other than list indices are modelled as unbounded integers. Episode ids (`numero`) and mouse and touch coordinates (`clientX`, used for the swipe distance) are `int`, so non-integer ids and fractional coordinates are outside the model.
- EpisodeCard.ParallaxOffset: scroll positions and heights are integers here, whereas the browser reports floating-point pixels.
- Slider.RunStaysInRange: it covers the slider's own inputs. Re-initialisation on remount is covered by `DesktopView.Reconcile`.
- Roulette.BuildReel: the reel's episodes come from the catalog, but their exact order depends on the random comparator and is not pinned down.

## Findings

| source | as written | input that shows it | evidently intended | confidence | as-written member | corrected member |
|---|---|---|---|---|---|---|
| components/DesktopEpisodeSlider.tsx:24-26 | The slider's index is set from `initialEpisode` only on mount. Choosing an episode in the saved modal while the slider is shown (App.tsx:103-108, rendered at App.tsx:269-281) updates the selection but not the slider, which stays on the old slide. | Catalog [1, 2], slider on episode 1, saved modal open, choose episode 2 | The slider moves to the chosen episode, as the narrow layout does by scrolling the feed to it (App.tsx:109-114) | medium, not executed | DesktopView.SelectSavedAsWrittenShowsStaleSlide | DesktopView.SelectSavedCorrected |
