/**
 * The script's global catalog state: the in-memory `movies` list and the 'oml_movies' entry
 * of local storage, with the operations that change them. Every operation that changes the
 * list ends by saving it, so the stored entry equals the list after each of them.
 */
module CatalogStore {
  import opened Options
  import opened Movies
  import opened Catalog

  class Store {
    /** The in-memory list, in display order. */
    var movies: seq<Movie>
    /** The 'oml_movies' entry of local storage; `None` while nothing has been saved. */
    var stored: Option<seq<Movie>>

    /** The page as it loads: an empty list, and whatever an earlier session saved. */
    constructor (saved: Option<seq<Movie>>)
      ensures movies == [] && stored == saved
    {
      movies := [];
      stored := saved;
    }

    /** `saveMovies`: the stored entry becomes a copy of the list. */
    method Save()
      modifies this
      ensures movies == old(movies) && stored == Some(movies)
    {
      stored := Some(movies);
    }

    /**
     * `init`: with nothing stored the list becomes a copy of the seed; otherwise the stored
     * list is loaded and reconciled with the seed, record by record. Either way it is saved.
     */
    method Init(seed: seq<Movie>)
      modifies this
      ensures old(stored).None? ==> movies == seed
      ensures old(stored).Some? ==> movies == Reconcile(old(stored).value, seed)
      ensures stored == Some(movies)
    {
      if stored.None? {
        movies := seed;
      } else {
        var saved := stored.value;
        movies := saved;
        for i := 0 to |seed|
          invariant stored == Some(saved)
          invariant Reconcile(movies, seed[i..]) == Reconcile(saved, seed)
        {
          var s := seed[i];
          assert seed[i..] == [s] + seed[i + 1..];
          var existing := FindTitle(movies, s.title);
          if existing.Some? {
            var k := existing.value;
            movies := movies[k := movies[k].(poster := s.poster)];
          } else {
            movies := movies + [s];
          }
        }
      }
      Save();
    }

    /**
     * The editor form's submission: the record built from the form replaces the first record
     * titled like the editor id, or is put in front when the id is empty; then the list is saved.
     */
    method SubmitForm(f: EditorForm)
      modifies this
      ensures movies == Submit(old(movies), f.id, BuildMovie(f))
      ensures stored == Some(movies)
    {
      var m := BuildMovie(f);
      if f.id != "" {
        var index := FindTitle(movies, f.id);
        if index.Some? {
          movies := movies[index.value := m];
        }
      } else {
        movies := [m] + movies;
      }
      Save();
    }

    /**
     * A click on star `v` of person `p` in the detail view of record `i`: only that record's
     * rating changes, as `ClickRating` describes; then the list is saved.
     */
    method Rate(i: nat, p: Person, v: int)
      requires i < |movies|
      modifies this
      ensures |movies| == |old(movies)|
      ensures movies[i] == old(movies)[i].(rating := ClickRating(old(movies)[i].rating, p, v))
      ensures forall j :: 0 <= j < |movies| && j != i ==> movies[j] == old(movies)[j]
      ensures stored == Some(movies)
    {
      var movie := movies[i];
      movies := movies[i := movie.(rating := ClickRating(movie.rating, p, v))];
      Save();
    }
  }

  /**
   * Two page loads in a row with the same seed: the second start finds the list the first one
   * saved and leaves it as it was. After a first start with nothing stored this needs the seed
   * titles to be distinct.
   */
  method ReloadTwice(saved: Option<seq<Movie>>, seed: seq<Movie>) returns (first: seq<Movie>, second: seq<Movie>)
    requires saved.Some? || DistinctTitles(seed)
    ensures saved.None? ==> first == seed
    ensures saved.Some? ==> first == Reconcile(saved.value, seed)
    ensures second == first
  {
    var page := new Store(saved);
    page.Init(seed);
    first := page.movies;
    var again := new Store(page.stored);
    again.Init(seed);
    second := again.movies;
    if saved.Some? {
      ReconcileIdempotent(saved.value, seed);
    } else {
      SeedCopyReconcilesToItself(seed);
    }
  }
}
