/** The sharing part of the saved-collection overlay
    (SavedEpisodesModal.tsx): the selection text listing the saved
    episodes, the mailto link carrying it, and the guard of the copy
    button. */
module ShareText {
  import opened Types
  import opened SavedModal

  /** Concatenates `parts` with `sep` between consecutive parts
      (`Array.prototype.join`): empty for no parts, otherwise opening with
      the first part and closing with the last; a single part is returned
      as it is. */
  function Join(parts: seq<string>, sep: string): (r: string)
    ensures |parts| == 0 ==> r == ""
    ensures |parts| == 1 ==> r == parts[0]
    ensures |parts| > 0 ==> |parts[0]| <= |r| && r[..|parts[0]|] == parts[0]
    ensures |parts| > 0 ==>
      |parts[|parts| - 1]| <= |r| && r[|r| - |parts[|parts| - 1]|..] == parts[|parts| - 1]
    decreases |parts|
  {
    if |parts| == 0 then ""
    else if |parts| == 1 then parts[0]
    else
      var rest := Join(parts[1..], sep);
      var last := parts[|parts| - 1];
      assert parts[1..][|parts[1..]| - 1] == last;
      var r := parts[0] + sep + rest;
      assert r[|r| - |last|..] == rest[|rest| - |last|..];
      r
  }

  /** Joining one more part appends the separator and that part. */
  lemma {:induction false} JoinSnoc(parts: seq<string>, sep: string, x: string)
    requires |parts| > 0
    ensures Join(parts + [x], sep) == Join(parts, sep) + sep + x
    decreases |parts|
  {
    if |parts| == 1 {
      assert (parts + [x])[1..] == [x];
    } else {
      assert (parts + [x])[1..] == parts[1..] + [x];
      JoinSnoc(parts[1..], sep, x);
    }
  }

  /** One entry of the selection: a dash, the title, then the page URL on
      an indented second line. */
  function Entry(e: Episode): (r: string)
    ensures |r| == 2 + |e.titre| + 3 + |e.liens.page|
    ensures r[..2] == "– " && r[2..2 + |e.titre|] == e.titre
    ensures r[2 + |e.titre|..5 + |e.titre|] == "\n  " && r[5 + |e.titre|..] == e.liens.page
  {
    "– " + e.titre + "\n  " + e.liens.page
  }

  function Entries(eps: seq<Episode>): (r: seq<string>)
    ensures |r| == |eps|
    ensures forall i :: 0 <= i < |eps| ==> r[i] == Entry(eps[i])
  {
    seq(|eps|, i requires 0 <= i < |eps| => Entry(eps[i]))
  }

  const EntrySeparator := "\n\n"

  /** The episode block: the entries in display order, separated by a
      blank line. It opens with the first listed episode's entry and closes
      with the last one's; a single episode's block is its entry. */
  function EpisodesBlock(eps: seq<Episode>): (r: string)
    ensures |eps| == 0 ==> r == ""
    ensures |eps| == 1 ==> r == Entry(eps[0])
    ensures |eps| > 0 ==> |Entry(eps[0])| <= |r| && r[..|Entry(eps[0])|] == Entry(eps[0])
    ensures |eps| > 0 ==>
      |Entry(eps[|eps| - 1])| <= |r| && r[|r| - |Entry(eps[|eps| - 1])|..] == Entry(eps[|eps| - 1])
  {
    Join(Entries(eps), EntrySeparator)
  }

  /** Adding an episode at the end of the list adds a blank line and its
      entry at the end of the block. */
  lemma EpisodesBlockSnoc(eps: seq<Episode>, e: Episode)
    requires |eps| > 0
    ensures EpisodesBlock(eps + [e]) == EpisodesBlock(eps) + EntrySeparator + Entry(e)
  {
    assert Entries(eps + [e]) == Entries(eps) + [Entry(e)];
    JoinSnoc(Entries(eps), EntrySeparator, Entry(e));
  }

  /** Opening line of the selection text. */
  const SelectionGreeting := "Bonjour,\n\n"

  /** Text before the episode block. */
  const SelectionHeader :=
    SelectionGreeting
    + "Vous souhaitez écouter cette sélection plus tard ?\n"
    + "Revenez vite découvrir ce contenu !\n\n"
    + "Voici ce qu'il faut conserver ou partager par mail :\n"

  /** Text after the episode block. */
  const SelectionFooter :=
    "\n\nBonne écoute !\n\n"
    + "[NOUVEAU Discutez avec Petit Solu, l'Assistant IA du podcast Soluble(s).]\n\n"
    + "Ne manquez pas de soutenir Soluble(s) en mettant 5 étoiles et un commentaire sur votre "
    + "plateforme d’écoute préférée, ça aide beaucoup, merci infiniment :\n\n"
    + "Apple Podcasts : https://podcasts.apple.com/fr/podcast/soluble-s-actu-ecologie-soci%C3%A9t%C3%A9-solutions/id1640003869\U{00A0}\n"
    + "Spotify : https://open.spotify.com/show/11CYdR9d0vEWmaD5DHZsaH?si=2b2f511444a44ad7\n\n"
    + "– Simon Icard, créateur du podcast Soluble(s)\n"
    + "https://www.linkedin.com/in/simon-icard-47766821/\n\n"
    + "***\nCe dispositif n'accède à aucune adresse e-mail, ni donnée personnelle."

  /** `r` is `middle` framed by `head` and `tail`. */
  predicate Framed(r: string, head: string, middle: string, tail: string) {
    && |r| == |head| + |middle| + |tail|
    && r[..|head|] == head
    && r[|head|..|head| + |middle|] == middle
    && r[|head| + |middle|..] == tail
  }

  lemma FramedConcat(head: string, middle: string, tail: string)
    ensures Framed(head + middle + tail, head, middle, tail)
  {
    var r := head + middle + tail;
    assert r[..|head|] == head;
    assert r[|head|..|head| + |middle|] == middle;
    assert r[|head| + |middle|..] == tail;
  }

  /** `selectionText`: empty exactly when nothing is listed; otherwise the
      episode block framed by the fixed header and footer. */
  function SelectionText(displayed: seq<Episode>): (r: string)
    ensures r == "" <==> |displayed| == 0
    ensures |displayed| > 0 ==> Framed(r, SelectionHeader, EpisodesBlock(displayed), SelectionFooter)
  {
    if |displayed| == 0 then ""
    else
      var block := EpisodesBlock(displayed);
      FramedConcat(SelectionHeader, block, SelectionFooter);
      assert |SelectionHeader| >= |SelectionGreeting| > 0;
      SelectionHeader + block + SelectionFooter
  }

  const MailPrefix := "mailto:?subject="
  const MailBodyParam := "&body="
  const MailSubject := "Épisode de Soluble(s) à écouter + tard ;-)"

  /** `mailtoHref`: empty exactly when nothing is listed; otherwise a mailto
      link carrying the encoded subject and the encoded selection text.
      `encode` stands for `encodeURIComponent`. */
  function MailtoHref(displayed: seq<Episode>, encode: string -> string): (r: string)
    ensures r == "" <==> |displayed| == 0
    ensures |displayed| > 0 ==>
      r == MailPrefix + encode(MailSubject) + MailBodyParam + encode(SelectionText(displayed))
  {
    if |displayed| == 0 then ""
    else
      var r := MailPrefix + encode(MailSubject) + MailBodyParam + encode(SelectionText(displayed));
      assert |MailPrefix| > 0;
      r
  }

  /** The share text and the mailto link are empty together. */
  lemma ShareTextsEmptyTogether(catalog: seq<Episode>, saved: seq<int>, encode: string -> string)
    ensures SelectionText(Displayed(catalog, saved)) == "" <==> MailtoHref(Displayed(catalog, saved), encode) == ""
  {
  }

  /** What a press of the copy button does: the text written to the
      clipboard, if any, and the "copied" flag afterwards. */
  datatype CopyOutcome = CopyOutcome(clipboard: Option<string>, copied: bool)

  /** `handleCopy`: nothing happens for an empty selection text; otherwise
      the text is copied and the flag raised. */
  function HandleCopy(selectionText: string, copied: bool): (r: CopyOutcome)
    ensures selectionText == "" ==> r.clipboard.None? && r.copied == copied
    ensures selectionText != "" ==> r.clipboard == Some(selectionText) && r.copied
  {
    if selectionText == "" then CopyOutcome(None, copied)
    else CopyOutcome(Some(selectionText), true)
  }

  /** The copy button puts something on the clipboard exactly when some
      saved episode is listed, and then it is the selection text. */
  lemma CopyWritesSelection(catalog: seq<Episode>, saved: seq<int>, copied: bool)
    ensures HandleCopy(SelectionText(Displayed(catalog, saved)), copied).clipboard.Some?
      <==> |Displayed(catalog, saved)| > 0
    ensures |Displayed(catalog, saved)| > 0 ==>
      HandleCopy(SelectionText(Displayed(catalog, saved)), copied).clipboard
        == Some(SelectionText(Displayed(catalog, saved)))
  {
  }
}
