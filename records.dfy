/**
 * Artwork records as the catalog API returns them, and the normalisation that
 * the component applies to every record it ingests.
 */
module Records {

  datatype Option<T> = None | Some(value: T)

  /**
   * One artwork. A field that the JSON response leaves out or sets to `null`
   * is `None`; the identifier is always present.
   */
  datatype Artwork = Artwork(
    id: int,
    title: Option<string>,
    placeOfOrigin: Option<string>,
    artistDisplay: Option<string>,
    inscriptions: Option<string>,
    dateStart: Option<int>,
    dateEnd: Option<int>)

  const UnknownText := "Unknown"
  const NoneText := "None"

  /** JavaScript truthiness of a string field: null, undefined and "" are falsy. */
  predicate TruthyText(v: Option<string>) {
    v.Some? && v.value != ""
  }

  /** JavaScript truthiness of a number field: null, undefined and 0 are falsy. */
  predicate TruthyNumber(v: Option<int>) {
    v.Some? && v.value != 0
  }

  /** The expression `v || fallback` on a string field. */
  function TextOr(v: Option<string>, fallback: string): (r: Option<string>) {
    if TruthyText(v) then v else Some(fallback)
  }

  /** The expression `v || fallback` on a number field. */
  function NumberOr(v: Option<int>, fallback: int): (r: Option<int>) {
    if TruthyNumber(v) then v else Some(fallback)
  }

  /** A record every defaulted field of which holds a value the table can show. */
  predicate IsNormalised(a: Artwork) {
    && TruthyText(a.placeOfOrigin)
    && TruthyText(a.artistDisplay)
    && TruthyText(a.inscriptions)
    && a.dateStart.Some?
    && a.dateEnd.Some?
  }

  /** The object spread `{...item, place_of_origin: item.place_of_origin || 'Unknown', ...}`. */
  function Normalize(a: Artwork): (r: Artwork)
    ensures IsNormalised(r)
    ensures r.id == a.id && r.title == a.title
    ensures TruthyText(a.placeOfOrigin) ==> r.placeOfOrigin == a.placeOfOrigin
    ensures !TruthyText(a.placeOfOrigin) ==> r.placeOfOrigin == Some(UnknownText)
    ensures TruthyText(a.artistDisplay) ==> r.artistDisplay == a.artistDisplay
    ensures !TruthyText(a.artistDisplay) ==> r.artistDisplay == Some(UnknownText)
    ensures TruthyText(a.inscriptions) ==> r.inscriptions == a.inscriptions
    ensures !TruthyText(a.inscriptions) ==> r.inscriptions == Some(NoneText)
    ensures TruthyNumber(a.dateStart) ==> r.dateStart == a.dateStart
    ensures !TruthyNumber(a.dateStart) ==> r.dateStart == Some(0)
    ensures TruthyNumber(a.dateEnd) ==> r.dateEnd == a.dateEnd
    ensures !TruthyNumber(a.dateEnd) ==> r.dateEnd == Some(0)
  {
    a.(placeOfOrigin := TextOr(a.placeOfOrigin, UnknownText),
       artistDisplay := TextOr(a.artistDisplay, UnknownText),
       inscriptions := TextOr(a.inscriptions, NoneText),
       dateStart := NumberOr(a.dateStart, 0),
       dateEnd := NumberOr(a.dateEnd, 0))
  }

  /** The records Normalize leaves alone are exactly the normalised ones. */
  lemma NormalizeFixedPoints(a: Artwork)
    ensures Normalize(a) == a <==> IsNormalised(a)
  {
  }

  lemma NormalizeIdempotent(a: Artwork)
    ensures Normalize(Normalize(a)) == Normalize(a)
  {
  }

  /** `apiData.data.map(item => ...)`: every fetched record normalised, in order. */
  function NormalizeAll(rs: seq<Artwork>): (r: seq<Artwork>)
    ensures |r| == |rs|
    ensures forall i :: 0 <= i < |r| ==> r[i] == Normalize(rs[i])
    decreases |rs|
  {
    if rs == [] then [] else [Normalize(rs[0])] + NormalizeAll(rs[1..])
  }

  /** Ingesting an already ingested page changes nothing. */
  lemma NormalizeAllIdempotent(rs: seq<Artwork>)
    ensures NormalizeAll(NormalizeAll(rs)) == NormalizeAll(rs)
  {
  }
}
