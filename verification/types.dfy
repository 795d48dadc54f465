/** The episode record of the catalog and the small option type used for
    the values the application keeps as `T | null` or optional fields. */
module Types {

  /** A value that may be absent (`null`, `undefined` or a missing key). */
  datatype Option<+T> = None | Some(value: T)

  /** Platform links of an episode. `page` is always present; the others
      are optional keys of the links object. */
  datatype Links = Links(
    page: string,
    spotify: Option<string>,
    apple: Option<string>,
    transcription: Option<string>,
    youtube: Option<string>,
    deezer: Option<string>,
    summary: Option<string>)

  /** One catalog item. `numero` is the identifier used as bookmark key and
      DOM anchor; the remaining fields are display attributes. */
  datatype Episode = Episode(
    numero: int,
    titre: string,
    date: string,
    duree: string,
    invite: string,
    categorie: string,
    description: string,
    motscles: seq<string>,
    thematique: string,
    liens: Links,
    image: string)

  /** No two catalog entries share a `numero`. */
  ghost predicate UniqueIds(catalog: seq<Episode>) {
    forall i, j :: 0 <= i < j < |catalog| ==> catalog[i].numero != catalog[j].numero
  }
}
