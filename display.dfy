/** The pure helpers the detail view and the search box apply to the catalog. */
module Display {
  import opened Text
  import opened Movies

  /** How a quote is shown: with a leading '#', added only when the quote lacks one. */
  function QuoteLabel(q: string): (r: string)
    ensures |r| > 0 && r[0] == '#'
    ensures r == q <==> |q| > 0 && q[0] == '#'
    ensures r != q ==> r == "#" + q
  {
    if |q| > 0 && q[0] == '#' then q else "#" + q
  }

  /** Labelling a quote twice gives the same label as labelling it once. */
  lemma QuoteLabelIdempotent(q: string)
    ensures QuoteLabel(QuoteLabel(q)) == QuoteLabel(q)
  {
  }

  /**
   * The address the trailer frame loads: the first "watch?v=" becomes "embed/"; failing that,
   * the first "youtu.be/" becomes "youtube.com/embed/"; any other address is kept.
   */
  function EmbedUrl(url: string): (r: string)
    ensures !Contains(url, "watch?v=") && !Contains(url, "youtu.be/") ==> r == url
    ensures forall i :: FirstOccurrence(url, "watch?v=", i) ==>
      r == url[..i] + "embed/" + url[i + 8..]
    ensures !Contains(url, "watch?v=") ==> forall i :: FirstOccurrence(url, "youtu.be/", i) ==>
      r == url[..i] + "youtube.com/embed/" + url[i + 9..]
  {
    if Contains(url, "watch?v=") then ReplaceFirst(url, "watch?v=", "embed/")
    else if Contains(url, "youtu.be/") then ReplaceFirst(url, "youtu.be/", "youtube.com/embed/")
    else url
  }

  /**
   * The search box: the records whose lower-cased title contains the lower-cased term, in
   * list order. `lower` stands for `String.prototype.toLowerCase`.
   */
  function Search(ms: seq<Movie>, term: string, lower: string -> string): (r: seq<Movie>)
    ensures |r| <= |ms|
    ensures forall i :: 0 <= i < |r| ==> r[i] in ms && Contains(lower(r[i].title), lower(term))
    ensures forall i :: 0 <= i < |ms| && Contains(lower(ms[i].title), lower(term)) ==> ms[i] in r
  {
    if |ms| == 0 then []
    else
      var rest := Search(ms[1..], term, lower);
      if Contains(lower(ms[0].title), lower(term)) then [ms[0]] + rest else rest
  }

  /** An empty search term shows the whole list, in order. */
  lemma {:induction false} SearchEmptyTermKeepsAll(ms: seq<Movie>, lower: string -> string)
    requires lower("") == ""
    ensures Search(ms, "", lower) == ms
  {
    if |ms| > 0 {
      SearchEmptyTermKeepsAll(ms[1..], lower);
      assert OccursAt(lower(ms[0].title), "", 0);
      assert ms == [ms[0]] + ms[1..];
    }
  }

  /**
   * The search filters record by record: searching two lists one after the other gives the
   * two results one after the other. With `SearchSingle` this fixes the result completely: the
   * shown records keep the list's order and multiplicity.
   */
  lemma {:induction false} SearchConcat(a: seq<Movie>, b: seq<Movie>, term: string, lower: string -> string)
    ensures Search(a + b, term, lower) == Search(a, term, lower) + Search(b, term, lower)
    decreases |a|
  {
    if |a| == 0 {
      assert a + b == b;
    } else {
      var x, rest := a[0], a[1..];
      SearchConcat(rest, b, term, lower);
      assert a == [x] + rest;
      SeqAssoc([x], rest, b);
      SearchCons(x, rest, term, lower);
      SearchCons(x, rest + b, term, lower);
      var sr, sb := Search(rest, term, lower), Search(b, term, lower);
      if Contains(lower(x.title), lower(term)) {
        SeqAssoc([x], sr, sb);
      }
    }
  }

  /** Searching a list that starts with `x` decides `x` first and then searches the rest. */
  lemma SearchCons(x: Movie, rest: seq<Movie>, term: string, lower: string -> string)
    ensures Search([x] + rest, term, lower) ==
      if Contains(lower(x.title), lower(term)) then [x] + Search(rest, term, lower) else Search(rest, term, lower)
  {
    assert ([x] + rest)[0] == x && ([x] + rest)[1..] == rest;
  }

  /** A single record is shown exactly when its lower-cased title contains the lower-cased term. */
  lemma SearchSingle(m: Movie, term: string, lower: string -> string)
    ensures Search([m], term, lower) == if Contains(lower(m.title), lower(term)) then [m] else []
  {
    assert [m][1..] == [];
  }
}
