/**
 * One catalog entry and its per-person star ratings, as the script stores them in
 * `movies` and in the 'oml_movies' storage entry.
 */
module Movies {
  import opened Options
  import opened Text

  /** The three people whose ratings a record carries (the rating keys 'O', 'M' and 'L'). */
  datatype Person = O | M | L

  /**
   * What a record's `rating` property can hold. Records written by the form always carry an
   * `Object`; older stored records may lack the property, hold `null`, or hold a plain value
   * (a number or a string) from an earlier format. An object may lack some of the three keys.
   */
  datatype Rating =
    | Absent
    | Null
    | Primitive
    | Object(scores: map<Person, int>)

  /** One catalog entry; the title doubles as its identifier. */
  datatype Movie = Movie(
    title: string,
    poster: string,
    trailer: Option<string>,
    music: Option<string>,
    actors: Option<string>,
    rating: Rating,
    quotes: seq<string>,
    platforms: Option<string>,
    comments: Option<string>)

  /** The all-zero rating object a rating click installs on a record that has none. */
  const ZeroScores: map<Person, int> := map[O := 0, M := 0, L := 0]

  /**
   * The star count shown for `p`: a missing, null or non-object rating, or a missing key,
   * reads as 0.
   */
  function GetRating(r: Rating, p: Person): (v: int)
    ensures r.Object? && p in r.scores ==> v == r.scores[p]
    ensures v != 0 ==> r.Object? && p in r.scores
  {
    match r
    case Object(scores) => if p in scores then scores[p] else 0
    case _ => 0
  }

  /**
   * The rating click as the script performs it. The guard `typeof movie.rating !== 'object'`
   * is false for `null`, so a null rating is not replaced and the following property write
   * throws a TypeError; `None` stands for that exception.
   */
  function ClickRatingAsWritten(r: Rating, p: Person, v: int): (res: Option<Rating>)
    ensures res.None? <==> r.Null?
    ensures res.Some? ==> res.value.Object? && GetRating(res.value, p) == v
  {
    match r
    case Null => None
    case Object(scores) => Some(Object(scores[p := v]))
    case _ => Some(Object(ZeroScores[p := v]))
  }

  /**
   * The rating click as intended: anything that is not a rating object is first replaced by
   * the all-zero object, then only `p`'s entry is set. A partial object is not filled out.
   */
  function ClickRating(r: Rating, p: Person, v: int): (res: Rating)
    ensures res.Object?
    ensures GetRating(res, p) == v
    ensures forall q :: q != p ==> GetRating(res, q) == GetRating(r, q)
    ensures r.Object? ==> res.scores.Keys == r.scores.Keys + {p}
    ensures !r.Object? ==> res.scores.Keys == {O, M, L}
  {
    match r
    case Object(scores) => Object(scores[p := v])
    case _ =>
      assert p.O? || p.M? || p.L?;
      assert ZeroScores.Keys == {O, M, L} && p in {O, M, L};
      Object(ZeroScores[p := v])
  }

  /** On every rating except `null` the script's click and the intended one agree. */
  lemma ClickAgreesExceptOnNull(r: Rating, p: Person, v: int)
    ensures r != Null ==> ClickRatingAsWritten(r, p, v) == Some(ClickRating(r, p, v))
    ensures r == Null ==> ClickRatingAsWritten(r, p, v) == None
  {
  }

  /** The discrepancy: a stored `rating: null` makes the script's click fail where a missing rating does not. */
  lemma NullRatingClickFails(p: Person, v: int)
    ensures ClickRatingAsWritten(Null, p, v).None?
    ensures ClickRatingAsWritten(Absent, p, v).Some?
    ensures GetRating(ClickRating(Null, p, v), p) == v
  {
  }

  /** A record without a rating, rated 4 by O, reads {O: 4, M: 0, L: 0}. */
  lemma ClickOnMissingRating()
    ensures ClickRating(Absent, O, 4) == Object(map[O := 4, M := 0, L := 0])
  {
  }

  /** The editor form's fields as the submit handler reads them; ratings already through `parseInt`. */
  datatype EditorForm = EditorForm(
    id: string,
    title: string,
    poster: string,
    trailer: string,
    music: string,
    actors: string,
    ratingO: Option<int>,
    ratingM: Option<int>,
    ratingL: Option<int>,
    quotesText: string,
    platforms: string,
    comments: string)

  /**
   * The record the submit handler builds from the form: every text field taken as typed, empty
   * strings included, a full rating object whose unreadable entries become 0, and the
   * non-blank quote lines in order (`Text.ParseQuotesByLine`).
   */
  function BuildMovie(f: EditorForm): (m: Movie)
    ensures m.title == f.title && m.poster == f.poster
    ensures m.trailer == Some(f.trailer) && m.music == Some(f.music) && m.actors == Some(f.actors)
    ensures m.platforms == Some(f.platforms) && m.comments == Some(f.comments)
    ensures m.quotes == ParseQuotes(f.quotesText)
    ensures m.rating.Object? && m.rating.scores.Keys == {O, M, L}
    ensures GetRating(m.rating, O) == f.ratingO.GetOr(0)
    ensures GetRating(m.rating, M) == f.ratingM.GetOr(0)
    ensures GetRating(m.rating, L) == f.ratingL.GetOr(0)
    ensures forall k :: 0 <= k < |m.quotes| ==> !IsBlank(m.quotes[k]) && '\n' !in m.quotes[k]
  {
    Movie(
      f.title, f.poster, Some(f.trailer), Some(f.music), Some(f.actors),
      Object(map[O := f.ratingO.GetOr(0), M := f.ratingM.GetOr(0), L := f.ratingL.GetOr(0)]),
      ParseQuotes(f.quotesText), Some(f.platforms), Some(f.comments))
  }
}
