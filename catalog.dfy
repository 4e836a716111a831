/**
 * The catalog as a list of records: the start-up reconciliation of a stored list with the
 * bundled seed list, and the form submission that edits or adds a record. These functions
 * specify the store's methods (module CatalogStore) and carry the lemmas about them.
 */
module Catalog {
  import opened Options
  import opened Text
  import opened Movies

  /** `ms.findIndex(m => m.title === t)`: the index of the first record titled `t`. */
  function FindTitle(ms: seq<Movie>, t: string): (r: Option<nat>)
    ensures r.Some? ==> r.value < |ms| && ms[r.value].title == t
    ensures r.Some? ==> forall j :: 0 <= j < r.value ==> ms[j].title != t
    ensures r.None? ==> forall j :: 0 <= j < |ms| ==> ms[j].title != t
  {
    if |ms| == 0 then None
    else if ms[0].title == t then Some(0)
    else
      match FindTitle(ms[1..], t)
      case Some(i) => Some(i + 1)
      case None => None
  }

  /** The titles occurring in `ms`. */
  function Titles(ms: seq<Movie>): set<string>
  {
    set m | m in ms :: m.title
  }

  /** The poster of the last seed record titled `t`: the one whose poster the reconciliation leaves in place. */
  function LastPoster(seed: seq<Movie>, t: string): (r: Option<string>)
    ensures r.None? <==> forall k :: 0 <= k < |seed| ==> seed[k].title != t
  {
    if |seed| == 0 then None
    else
      match LastPoster(seed[1..], t)
      case Some(p) => Some(p)
      case None => if seed[0].title == t then Some(seed[0].poster) else None
  }

  /** Index `k` holds the last seed record titled `t`. */
  predicate LastAt(seed: seq<Movie>, t: string, k: nat) {
    k < |seed| && seed[k].title == t && forall k' :: k < k' < |seed| ==> seed[k'].title != t
  }

  /** `LastPoster` reports the poster of the last seed record with the title. */
  lemma {:induction false} LastPosterIsLast(seed: seq<Movie>, t: string, k: nat)
    requires LastAt(seed, t, k)
    ensures LastPoster(seed, t) == Some(seed[k].poster)
  {
    if k > 0 {
      assert LastAt(seed[1..], t, k - 1);
      LastPosterIsLast(seed[1..], t, k - 1);
    } else if |seed| > 1 {
      assert forall k' :: 0 <= k' < |seed[1..]| ==> seed[1..][k'] == seed[k' + 1];
    }
  }

  /**
   * One step of the reconciliation loop: a seed record whose title is already present
   * overwrites the poster of the first record with that title; otherwise it is appended.
   */
  function MergeOne(ms: seq<Movie>, s: Movie): (r: seq<Movie>)
    ensures |ms| <= |r| <= |ms| + 1
    ensures forall i :: 0 <= i < |ms| ==> r[i] == ms[i].(poster := r[i].poster)
    ensures |r| == |ms| + 1 ==> r[|ms|] == s
  {
    match FindTitle(ms, s.title)
    case Some(i) => ms[i := ms[i].(poster := s.poster)]
    case None => ms + [s]
  }

  /** The reconciliation of a stored list `ms` with the seed list, one seed record at a time in seed order. */
  function Reconcile(ms: seq<Movie>, seed: seq<Movie>): (r: seq<Movie>)
    ensures |ms| <= |r| <= |ms| + |seed|
    ensures forall i :: 0 <= i < |ms| ==> r[i] == ms[i].(poster := r[i].poster)
    decreases |seed|
  {
    if |seed| == 0 then ms else Reconcile(MergeOne(ms, seed[0]), seed[1..])
  }

  /** The record at index `i` after reconciliation: repaired when it is the first of its title and the seed has that title. */
  function PatchAt(ms: seq<Movie>, seed: seq<Movie>, i: nat): Movie
    requires i < |ms|
  {
    if FindTitle(ms, ms[i].title) == Some(i) && LastPoster(seed, ms[i].title).Some?
    then ms[i].(poster := LastPoster(seed, ms[i].title).value)
    else ms[i]
  }

  /** The stored records after reconciliation, position by position. */
  function Patch(ms: seq<Movie>, seed: seq<Movie>): (r: seq<Movie>)
    ensures |r| == |ms|
  {
    seq(|ms|, i requires 0 <= i < |ms| => PatchAt(ms, seed, i))
  }

  /**
   * The records reconciliation appends: for each title of the seed that is not among `titles`,
   * in the order of its first seed occurrence, that first seed record carrying the poster of
   * the last seed record with the title.
   */
  function Added(titles: set<string>, seed: seq<Movie>): (r: seq<Movie>)
    ensures forall i :: 0 <= i < |r| ==> r[i].title !in titles
    ensures forall i :: 0 <= i < |r| ==> LastPoster(seed, r[i].title) == Some(r[i].poster)
    decreases |seed|
  {
    if |seed| == 0 then []
    else
      var s, rest := seed[0], seed[1..];
      if s.title in titles then Added(titles, rest)
      else
        var tail := Added(titles + {s.title}, rest);
        assert forall i :: 0 <= i < |tail| ==> LastPoster(seed, tail[i].title) == LastPoster(rest, tail[i].title);
        [s.(poster := LastPoster(rest, s.title).GetOr(s.poster))] + tail
  }

  /** No two records of `ms` share a title. */
  predicate DistinctTitles(ms: seq<Movie>) {
    forall i, j :: 0 <= i < j < |ms| ==> ms[i].title != ms[j].title
  }

  /** `a` is a record of `seed`, except possibly for its poster. */
  predicate IsSeedRecord(a: Movie, seed: seq<Movie>) {
    exists k :: 0 <= k < |seed| && a == seed[k].(poster := a.poster)
  }

  /** Every record of `r` is a record of `seed`, except possibly for its poster. */
  predicate FromSeed(r: seq<Movie>, seed: seq<Movie>) {
    forall i :: 0 <= i < |r| ==> IsSeedRecord(r[i], seed)
  }

  lemma SeedRecordOfTail(a: Movie, seed: seq<Movie>)
    requires |seed| > 0 && IsSeedRecord(a, seed[1..])
    ensures IsSeedRecord(a, seed)
  {
    var k :| 0 <= k < |seed[1..]| && a == seed[1..][k].(poster := a.poster);
    assert seed[k + 1] == seed[1..][k];
  }

  /** The appended records carry pairwise different titles. */
  lemma {:induction false} AddedDistinct(titles: set<string>, seed: seq<Movie>)
    ensures DistinctTitles(Added(titles, seed))
    decreases |seed|
  {
    if |seed| > 0 {
      var s, rest := seed[0], seed[1..];
      if s.title in titles {
        assert Added(titles, seed) == Added(titles, rest);
        AddedDistinct(titles, rest);
      } else {
        AddedDistinct(titles + {s.title}, rest);
      }
    }
  }

  /** Each appended record is a seed record, except possibly for its poster. */
  lemma {:induction false} AddedFromSeed(titles: set<string>, seed: seq<Movie>)
    ensures FromSeed(Added(titles, seed), seed)
    decreases |seed|
  {
    if |seed| > 0 {
      var s, rest := seed[0], seed[1..];
      var r := Added(titles, seed);
      if s.title in titles {
        AddedFromSeed(titles, rest);
        assert r == Added(titles, rest);
        forall i | 0 <= i < |r| ensures IsSeedRecord(r[i], seed) {
          SeedRecordOfTail(r[i], seed);
        }
      } else {
        var tail := Added(titles + {s.title}, rest);
        AddedFromSeed(titles + {s.title}, rest);
        assert r == [r[0]] + tail;
        forall i | 0 <= i < |r| ensures IsSeedRecord(r[i], seed) {
          if i == 0 {
            assert r[0] == seed[0].(poster := r[0].poster);
          } else {
            assert r[i] == tail[i - 1];
            SeedRecordOfTail(r[i], seed);
          }
        }
      }
    }
  }

  /** Every seed title is either among `titles` or among the appended records. */
  lemma {:induction false} AddedCoversSeed(titles: set<string>, seed: seq<Movie>)
    ensures forall k :: 0 <= k < |seed| ==> seed[k].title in titles || seed[k].title in Titles(Added(titles, seed))
    decreases |seed|
  {
    if |seed| > 0 {
      var s, rest := seed[0], seed[1..];
      var titles' := if s.title in titles then titles else titles + {s.title};
      AddedCoversSeed(titles', rest);
      var r, tail := Added(titles, seed), Added(titles', rest);
      assert r == if s.title in titles then tail else [r[0]] + tail;
      forall m | m in tail ensures m in r { }
      forall k | 0 <= k < |seed| ensures seed[k].title in titles || seed[k].title in Titles(r) {
        if k > 0 {
          assert seed[k] == rest[k - 1];
        } else if s.title !in titles {
          assert r[0] in r;
        }
      }
    }
  }

  /** Index `i` holds the first record titled `t`. */
  predicate FirstAt(ms: seq<Movie>, t: string, i: nat) {
    i < |ms| && ms[i].title == t && forall j :: 0 <= j < i ==> ms[j].title != t
  }

  /** The first occurrence of a title is the index `FindTitle` reports. */
  lemma FindTitleIsFirst(ms: seq<Movie>, t: string, i: nat)
    ensures FindTitle(ms, t) == Some(i) <==> FirstAt(ms, t, i)
  {
  }

  /** Finding a title in a list and in a copy of it with the same titles gives the same index. */
  lemma FindTitleSameTitles(ms: seq<Movie>, ns: seq<Movie>, t: string)
    requires |ms| == |ns|
    requires forall i :: 0 <= i < |ms| ==> ms[i].title == ns[i].title
    ensures FindTitle(ms, t) == FindTitle(ns, t)
  {
    var a := FindTitle(ms, t);
    if a.Some? {
      FindTitleIsFirst(ms, t, a.value);
      FindTitleIsFirst(ns, t, a.value);
    }
  }

  /** Appending never moves the first occurrence of a title already present. */
  lemma FindTitleAppendPresent(ms: seq<Movie>, tail: seq<Movie>, t: string, i: nat)
    requires FindTitle(ms, t) == Some(i)
    ensures FindTitle(ms + tail, t) == Some(i)
  {
    FindTitleIsFirst(ms, t, i);
    var all := ms + tail;
    assert forall j :: 0 <= j <= i ==> all[j].title == ms[j].title;
    FindTitleIsFirst(all, t, i);
  }

  /** A title missing from `ms` is first found in `ms + tail` where it is first found in `tail`. */
  lemma FindTitleAppendMissing(ms: seq<Movie>, tail: seq<Movie>, t: string, i: nat)
    requires FindTitle(ms, t).None?
    requires FindTitle(tail, t) == Some(i)
    ensures FindTitle(ms + tail, t) == Some(|ms| + i)
  {
    FindTitleIsFirst(tail, t, i);
    var all := ms + tail;
    assert forall j :: 0 <= j < |ms| ==> all[j].title == ms[j].title;
    assert forall j :: 0 <= j <= i ==> all[|ms| + j].title == tail[j].title;
    assert forall j :: |ms| <= j < |ms| + i ==> all[j].title != t by {
      forall j | |ms| <= j < |ms| + i ensures all[j].title != t {
        assert all[|ms| + (j - |ms|)].title == tail[j - |ms|].title;
      }
    }
    FindTitleIsFirst(all, t, |ms| + i);
  }

  /** The first occurrence is pinned down by the title at `i` and the absence of that title before `i`. */
  lemma FindTitleAt(ms: seq<Movie>, i: nat)
    requires i < |ms|
    requires forall j :: 0 <= j < i ==> ms[j].title != ms[i].title
    ensures FindTitle(ms, ms[i].title) == Some(i)
  {
    FindTitleIsFirst(ms, ms[i].title, i);
  }

  lemma InTitles(ms: seq<Movie>, i: nat)
    requires i < |ms|
    ensures ms[i].title in Titles(ms)
  {
    assert ms[i] in ms;
  }

  /** A title belongs to `Titles(ms)` exactly when some record carries it. */
  lemma TitlesHasIndex(ms: seq<Movie>, t: string)
    ensures t in Titles(ms) <==> FindTitle(ms, t).Some?
  {
    if t in Titles(ms) {
      var m :| m in ms && m.title == t;
      var i :| 0 <= i < |ms| && ms[i] == m;
    }
    if FindTitle(ms, t).Some? { InTitles(ms, FindTitle(ms, t).value); }
  }

  /** The seed step that meets an existing title, seen through the closed form. */
  lemma MergeOneFound(ms: seq<Movie>, s: Movie, rest: seq<Movie>, j: nat)
    requires FindTitle(ms, s.title) == Some(j)
    ensures Patch(MergeOne(ms, s), rest) == Patch(ms, [s] + rest)
    ensures Titles(MergeOne(ms, s)) == Titles(ms)
    ensures Added(Titles(ms), [s] + rest) == Added(Titles(ms), rest)
  {
    var seed := [s] + rest;
    assert seed[0] == s && seed[1..] == rest;
    var ms1 := ms[j := ms[j].(poster := s.poster)];
    assert MergeOne(ms, s) == ms1;
    forall i | 0 <= i < |ms| ensures FindTitle(ms1, ms1[i].title) == FindTitle(ms, ms[i].title) {
      FindTitleSameTitles(ms1, ms, ms1[i].title);
    }
    forall i | 0 <= i < |ms| ensures PatchAt(ms1, rest, i) == PatchAt(ms, seed, i) {
      var t := ms[i].title;
      if t != s.title {
        assert LastPoster(seed, t) == LastPoster(rest, t);
      }
    }
    forall m | m in ms1 ensures m.title in Titles(ms) {
      var i :| 0 <= i < |ms1| && ms1[i] == m;
      InTitles(ms, i);
    }
    forall m | m in ms ensures m.title in Titles(ms1) {
      var i :| 0 <= i < |ms| && ms[i] == m;
      InTitles(ms1, i);
    }
    InTitles(ms, j);
  }

  lemma TitlesAppend(ms: seq<Movie>, s: Movie)
    ensures Titles(ms + [s]) == Titles(ms) + {s.title}
  {
    assert (ms + [s])[|ms|] == s;
    forall m | m in ms ensures m in ms + [s] { }
  }

  /** Appending a seed record with a new title: the old positions are repaired as before, the new one by the rest of the seed. */
  lemma PatchAppendMissing(ms: seq<Movie>, s: Movie, rest: seq<Movie>)
    requires FindTitle(ms, s.title).None?
    ensures Patch(ms + [s], rest) == Patch(ms, [s] + rest) + [s.(poster := LastPoster(rest, s.title).GetOr(s.poster))]
  {
    var seed := [s] + rest;
    assert seed[0] == s && seed[1..] == rest;
    var ms1 := ms + [s];
    forall i | 0 <= i < |ms| ensures PatchAt(ms1, rest, i) == PatchAt(ms, seed, i) {
      var t := ms[i].title;
      FindTitleAppendPresent(ms, [s], t, FindTitle(ms, t).value);
      assert ms1[i] == ms[i];
      assert LastPoster(seed, t) == LastPoster(rest, t);
    }
    FindTitleAt(ms1, |ms|);
  }

  /** A seed record whose title is new heads the appended records. */
  lemma AddedNewHead(titles: set<string>, s: Movie, rest: seq<Movie>)
    requires s.title !in titles
    ensures Added(titles, [s] + rest)
         == [s.(poster := LastPoster(rest, s.title).GetOr(s.poster))] + Added(titles + {s.title}, rest)
  {
    var seed := [s] + rest;
    assert seed[0] == s && seed[1..] == rest;
  }

  /** The seed step that meets a missing title, seen through the closed form. */
  lemma MergeOneMissing(ms: seq<Movie>, s: Movie, rest: seq<Movie>)
    requires FindTitle(ms, s.title).None?
    ensures Patch(MergeOne(ms, s), rest) + Added(Titles(ms) + {s.title}, rest)
         == Patch(ms, [s] + rest) + Added(Titles(ms), [s] + rest)
    ensures Titles(MergeOne(ms, s)) == Titles(ms) + {s.title}
  {
    assert MergeOne(ms, s) == ms + [s];
    TitlesHasIndex(ms, s.title);
    var head := s.(poster := LastPoster(rest, s.title).GetOr(s.poster));
    var tail := Added(Titles(ms) + {s.title}, rest);
    AddedNewHead(Titles(ms), s, rest);
    PatchAppendMissing(ms, s, rest);
    TitlesAppend(ms, s);
    var p := Patch(ms, [s] + rest);
    calc {
      Patch(MergeOne(ms, s), rest) + tail;
      Patch(ms + [s], rest) + tail;
      (p + [head]) + tail;
      { SeqAssoc(p, [head], tail); }
      p + ([head] + tail);
      p + Added(Titles(ms), [s] + rest);
    }
  }

  /**
   * The reconciliation in closed form: the stored records, each repaired where it is the
   * first of a seed title, followed by the seed records whose titles were missing.
   */
  lemma {:induction false} ReconcileClosedForm(ms: seq<Movie>, seed: seq<Movie>)
    ensures Reconcile(ms, seed) == Patch(ms, seed) + Added(Titles(ms), seed)
    decreases |seed|
  {
    if |seed| == 0 {
      assert Patch(ms, seed) == ms;
    } else {
      var s, rest := seed[0], seed[1..];
      assert seed == [s] + rest;
      var ms1 := MergeOne(ms, s);
      ReconcileClosedForm(ms1, rest);
      match FindTitle(ms, s.title)
      case Some(j) => MergeOneFound(ms, s, rest, j);
      case None => MergeOneMissing(ms, s, rest);
    }
  }

  lemma TitlesConcat(a: seq<Movie>, b: seq<Movie>)
    ensures Titles(a + b) == Titles(a) + Titles(b)
  {
    forall m | m in a + b ensures m in a || m in b { }
    forall m | m in a ensures m in a + b { }
    forall m | m in b ensures m in a + b { }
  }

  lemma TitlesPatch(ms: seq<Movie>, seed: seq<Movie>)
    ensures Titles(Patch(ms, seed)) == Titles(ms)
  {
    var p := Patch(ms, seed);
    forall m | m in p ensures m.title in Titles(ms) {
      var i :| 0 <= i < |p| && p[i] == m;
      InTitles(ms, i);
    }
    forall m | m in ms ensures m.title in Titles(p) {
      var i :| 0 <= i < |ms| && ms[i] == m;
      InTitles(p, i);
    }
  }

  /** Nothing is appended when every seed title is already present. */
  lemma {:induction false} AddedNoneMissing(titles: set<string>, seed: seq<Movie>)
    requires forall k :: 0 <= k < |seed| ==> seed[k].title in titles
    ensures Added(titles, seed) == []
    decreases |seed|
  {
    if |seed| > 0 {
      AddedNoneMissing(titles, seed[1..]);
    }
  }

  /**
   * Reconciliation keeps every stored record at its index. Only the poster can change, and
   * only on the first record of a title the seed carries, where it becomes the poster of the
   * last seed record with that title; every other stored record stays exactly as it was.
   */
  lemma ReconcileKeepsExisting(ms: seq<Movie>, seed: seq<Movie>)
    ensures |Reconcile(ms, seed)| >= |ms|
    ensures forall i :: 0 <= i < |ms| ==>
      Reconcile(ms, seed)[i] == ms[i].(poster := Reconcile(ms, seed)[i].poster)
    ensures forall i :: 0 <= i < |ms| && FindTitle(ms, ms[i].title) == Some(i) && LastPoster(seed, ms[i].title).Some? ==>
      Reconcile(ms, seed)[i].poster == LastPoster(seed, ms[i].title).value
    ensures forall i :: 0 <= i < |ms| && (FindTitle(ms, ms[i].title) != Some(i) || LastPoster(seed, ms[i].title).None?) ==>
      Reconcile(ms, seed)[i] == ms[i]
  {
    ReconcileClosedForm(ms, seed);
    var r := Reconcile(ms, seed);
    assert forall i :: 0 <= i < |ms| ==> r[i] == PatchAt(ms, seed, i);
  }

  /**
   * Reconciliation appends, after all stored records, one record for each seed title the
   * stored list lacks, with distinct titles, each a seed record; afterwards every seed title
   * occurs in the list. When the seed titles are distinct, the appended block is exactly the
   * seed records with missing titles, in seed order.
   */
  lemma ReconcileAppends(ms: seq<Movie>, seed: seq<Movie>)
    ensures |Reconcile(ms, seed)| == |ms| + |Added(Titles(ms), seed)|
    ensures Reconcile(ms, seed)[|ms|..] == Added(Titles(ms), seed)
    ensures forall i :: |ms| <= i < |Reconcile(ms, seed)| ==>
      Reconcile(ms, seed)[i].title !in Titles(ms) && IsSeedRecord(Reconcile(ms, seed)[i], seed)
    ensures DistinctTitles(Reconcile(ms, seed)[|ms|..])
    ensures forall k :: 0 <= k < |seed| ==> seed[k].title in Titles(Reconcile(ms, seed))
    ensures DistinctTitles(seed) ==> Reconcile(ms, seed)[|ms|..] == Missing(Titles(ms), seed)
  {
    ReconcileClosedForm(ms, seed);
    if DistinctTitles(seed) {
      AddedWithDistinctSeed(Titles(ms), seed);
    }
    var r, a := Reconcile(ms, seed), Added(Titles(ms), seed);
    assert r[|ms|..] == a;
    AddedDistinct(Titles(ms), seed);
    AddedFromSeed(Titles(ms), seed);
    assert forall i :: |ms| <= i < |r| ==> r[i] == a[i - |ms|];
    ReconcileCoversSeed(ms, seed);
  }

  /** After reconciliation every seed title occurs in the list. */
  lemma ReconcileCoversSeed(ms: seq<Movie>, seed: seq<Movie>)
    ensures forall k :: 0 <= k < |seed| ==> seed[k].title in Titles(Reconcile(ms, seed))
  {
    ReconcileClosedForm(ms, seed);
    AddedCoversSeed(Titles(ms), seed);
    TitlesConcat(Patch(ms, seed), Added(Titles(ms), seed));
    TitlesPatch(ms, seed);
  }

  /** Each record of a reconciled list already carries the poster a second pass would give it. */
  lemma ReconciledIsRepaired(ms: seq<Movie>, seed: seq<Movie>, i: nat)
    requires i < |Reconcile(ms, seed)|
    ensures PatchAt(Reconcile(ms, seed), seed, i) == Reconcile(ms, seed)[i]
  {
    var r := Reconcile(ms, seed);
    ReconcileClosedForm(ms, seed);
    var p, a := Patch(ms, seed), Added(Titles(ms), seed);
    var t := r[i].title;
    if i < |ms| {
      assert r[i] == PatchAt(ms, seed, i);
      if FindTitle(r, t) == Some(i) {
        FindTitleIsFirst(r, t, i);
        assert forall j :: 0 <= j <= i ==> r[j].title == p[j].title == ms[j].title;
        FindTitleIsFirst(ms, t, i);
      }
    } else {
      assert r[i] == a[i - |ms|];
    }
  }

  /** Running the reconciliation again with the same seed changes nothing. */
  lemma ReconcileIdempotent(ms: seq<Movie>, seed: seq<Movie>)
    ensures Reconcile(Reconcile(ms, seed), seed) == Reconcile(ms, seed)
  {
    var r := Reconcile(ms, seed);
    ReconcileClosedForm(r, seed);
    ReconcileCoversSeed(ms, seed);
    AddedNoneMissing(Titles(r), seed);
    forall i | 0 <= i < |r| ensures Patch(r, seed)[i] == r[i] {
      ReconciledIsRepaired(ms, seed, i);
    }
    assert Patch(r, seed) == r;
  }

  /**
   * A list that is a fresh copy of the seed reconciles to itself, when the seed titles are
   * distinct: reloading right after the first start changes nothing.
   */
  lemma SeedCopyReconcilesToItself(seed: seq<Movie>)
    requires DistinctTitles(seed)
    ensures Reconcile(seed, seed) == seed
  {
    ReconcileClosedForm(seed, seed);
    forall k | 0 <= k < |seed| ensures seed[k].title in Titles(seed) { InTitles(seed, k); }
    AddedNoneMissing(Titles(seed), seed);
    forall i | 0 <= i < |seed| ensures PatchAt(seed, seed, i) == seed[i] {
      assert LastAt(seed, seed[i].title, i);
      LastPosterIsLast(seed, seed[i].title, i);
    }
    assert Patch(seed, seed) == seed;
  }

  /** `seed.filter(s => !titles.has(s.title))`. */
  function Missing(titles: set<string>, seed: seq<Movie>): (r: seq<Movie>)
    ensures forall i :: 0 <= i < |r| ==> r[i] in seed && r[i].title !in titles
  {
    if |seed| == 0 then []
    else if seed[0].title in titles then Missing(titles, seed[1..])
    else [seed[0]] + Missing(titles, seed[1..])
  }

  lemma {:induction false} AddedIgnoresAbsentTitle(titles: set<string>, t: string, seed: seq<Movie>)
    requires forall k :: 0 <= k < |seed| ==> seed[k].title != t
    ensures Added(titles + {t}, seed) == Added(titles, seed)
    decreases |seed|
  {
    if |seed| > 0 {
      var s, rest := seed[0], seed[1..];
      AddedIgnoresAbsentTitle(titles, t, rest);
      if s.title !in titles {
        assert titles + {t} + {s.title} == titles + {s.title} + {t};
        AddedIgnoresAbsentTitle(titles + {s.title}, t, rest);
      }
    }
  }

  /**
   * With distinct seed titles, the appended records are exactly the seed records whose title
   * the stored list lacks, unchanged and in seed order.
   */
  lemma {:induction false} AddedWithDistinctSeed(titles: set<string>, seed: seq<Movie>)
    requires DistinctTitles(seed)
    ensures Added(titles, seed) == Missing(titles, seed)
    decreases |seed|
  {
    if |seed| > 0 {
      var s, rest := seed[0], seed[1..];
      assert DistinctTitles(rest);
      AddedWithDistinctSeed(titles, rest);
      if s.title !in titles {
        assert forall k :: 0 <= k < |rest| ==> rest[k].title != s.title by {
          forall k | 0 <= k < |rest| ensures rest[k].title != s.title {
            assert rest[k] == seed[k + 1];
          }
        }
        AddedIgnoresAbsentTitle(titles, s.title, rest);
        assert s.(poster := s.poster) == s;
      }
    }
  }

  /**
   * The list after a form submission. A non-empty editor id (the title the record had when
   * the editor was opened) replaces the first record with that title, in place, whatever
   * title the new record carries; an id that no record carries changes nothing. An empty id
   * puts the new record in front, without looking for a record of the same title.
   */
  function Submit(ms: seq<Movie>, id: string, m: Movie): (r: seq<Movie>)
    ensures id != "" ==> |r| == |ms|
    ensures id != "" && (forall j :: 0 <= j < |ms| ==> ms[j].title != id) ==> r == ms
    ensures forall i :: 0 <= i < |ms| && id != "" && FirstAt(ms, id, i) ==>
      r[i] == m && forall j :: 0 <= j < |ms| && j != i ==> r[j] == ms[j]
    ensures id == "" ==> |r| == |ms| + 1 && r[0] == m && r[1..] == ms
  {
    if id != "" then
      match FindTitle(ms, id)
      case Some(i) => FindTitleIsFirst(ms, id, i); ms[i := m]
      case None => ms
    else [m] + ms
  }

  /**
   * An edit that renames a record rewrites its slot and creates no duplicate: titles that were
   * distinct stay distinct as long as the new title is the edited one or not in use.
   */
  lemma EditKeepsTitlesDistinct(ms: seq<Movie>, id: string, m: Movie)
    requires DistinctTitles(ms) && id != ""
    requires forall j :: 0 <= j < |ms| && ms[j].title == m.title ==> ms[j].title == id
    ensures DistinctTitles(Submit(ms, id, m))
  {
    var r := Submit(ms, id, m);
    match FindTitle(ms, id)
    case None =>
    case Some(i) =>
      FindTitleIsFirst(ms, id, i);
      forall a, b | 0 <= a < b < |r| ensures r[a].title != r[b].title {
        if a == i { assert r[b] == ms[b]; }
        else if b == i { assert r[a] == ms[a]; }
        else { assert r[a] == ms[a] && r[b] == ms[b]; }
      }
  }

  /** Adding a record whose title is already in the list yields two records with that title. */
  lemma AddMayDuplicate(ms: seq<Movie>, m: Movie)
    requires m.title in Titles(ms)
    ensures !DistinctTitles(Submit(ms, "", m))
  {
    TitlesHasIndex(ms, m.title);
    var k := FindTitle(ms, m.title).value;
    var r := Submit(ms, "", m);
    assert r[k + 1] == ms[k];
    assert r[0].title == r[k + 1].title;
  }
}
