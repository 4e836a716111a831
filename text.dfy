/**
 * The string operations the catalog relies on, written out because the script takes them
 * from the JavaScript library: `split`, `join`, `trim`, `includes` and `replace`.
 */
module Text {
  import opened Options

  /** The characters `String.prototype.trim` removes: ECMAScript WhiteSpace and LineTerminator. */
  predicate IsWhitespace(c: char) {
    c == ' ' || c == '\t' || c == '\n' || c == '\r' || c == '\U{0B}' || c == '\U{0C}'
    || c == '\U{A0}' || c == '\U{1680}' || ('\U{2000}' <= c <= '\U{200A}')
    || c == '\U{2028}' || c == '\U{2029}' || c == '\U{202F}' || c == '\U{205F}'
    || c == '\U{3000}' || c == '\U{FEFF}'
  }

  /** `s.trimStart()`: drops the leading whitespace. */
  function TrimStart(s: string): string
    decreases |s|
  {
    if |s| > 0 && IsWhitespace(s[0]) then TrimStart(s[1..]) else s
  }

  /** `s.trimEnd()`: drops the trailing whitespace. */
  function TrimEnd(s: string): string
    decreases |s|
  {
    if |s| > 0 && IsWhitespace(s[|s| - 1]) then TrimEnd(s[..|s| - 1]) else s
  }

  /** `s.trim()`. */
  function Trim(s: string): string {
    TrimEnd(TrimStart(s))
  }

  /** Trimming the start leaves nothing exactly when `s` is all whitespace, and otherwise starts at a visible character. */
  lemma {:induction false} TrimStartEmpty(s: string)
    ensures TrimStart(s) == [] <==> forall i :: 0 <= i < |s| ==> IsWhitespace(s[i])
    ensures TrimStart(s) != [] ==> !IsWhitespace(TrimStart(s)[0])
    decreases |s|
  {
    if |s| > 0 && IsWhitespace(s[0]) {
      TrimStartEmpty(s[1..]);
      assert forall i :: 1 <= i < |s| ==> s[i] == s[1..][i - 1];
    }
  }

  /** Trimming the end of a string that starts with a visible character leaves it non-empty. */
  lemma {:induction false} TrimEndKeepsVisibleHead(s: string)
    requires s != [] && !IsWhitespace(s[0])
    ensures TrimEnd(s) != []
    decreases |s|
  {
    if IsWhitespace(s[|s| - 1]) {
      TrimEndKeepsVisibleHead(s[..|s| - 1]);
    }
  }

  /** The test `s.trim() === ''`: it holds exactly when every character of `s` is whitespace. */
  function IsBlank(s: string): (b: bool)
    ensures b <==> forall i :: 0 <= i < |s| ==> IsWhitespace(s[i])
  {
    TrimStartEmpty(s);
    if TrimStart(s) == [] then Trim(s) == ""
    else TrimEndKeepsVisibleHead(TrimStart(s)); Trim(s) == ""
  }

  /** `s.split(sep)` for a one-character separator; `SplitPieceCount` counts the pieces. */
  function Split(s: string, sep: char): (r: seq<string>)
    ensures |r| >= 1
    ensures forall k :: 0 <= k < |r| ==> sep !in r[k]
    decreases |s|
  {
    if |s| == 0 then [""]
    else
      var rest := Split(s[1..], sep);
      if s[0] == sep then [""] + rest else [[s[0]] + rest[0]] + rest[1..]
  }

  /** Each occurrence of the separator ends one piece: k separators give k + 1 pieces. */
  lemma {:induction false} SplitPieceCount(s: string, sep: char)
    ensures |Split(s, sep)| == multiset(s)[sep] + 1
    decreases |s|
  {
    if |s| > 0 {
      SplitPieceCount(s[1..], sep);
      assert s == [s[0]] + s[1..];
    }
  }

  /** `parts.join(sep)`; an empty array joins to the empty string. */
  function Join(parts: seq<string>, sep: char): (r: string)
    ensures |parts| > 0 ==> parts[0] <= r
    ensures |parts| > 1 ==> |parts[0]| < |r| && r[|parts[0]|] == sep
  {
    if |parts| == 0 then ""
    else if |parts| == 1 then parts[0]
    else parts[0] + [sep] + Join(parts[1..], sep)
  }

  /** Joining n separator-free pieces puts exactly n - 1 separators into the text. */
  lemma {:induction false} JoinSeparatorCount(parts: seq<string>, sep: char)
    requires |parts| > 0
    requires forall k :: 0 <= k < |parts| ==> sep !in parts[k]
    ensures multiset(Join(parts, sep))[sep] == |parts| - 1
  {
    if |parts| > 1 {
      JoinSeparatorCount(parts[1..], sep);
    }
  }

  /** Splitting and joining on the same separator gives back the original text. */
  lemma {:induction false} JoinOfSplit(s: string, sep: char)
    ensures Join(Split(s, sep), sep) == s
    decreases |s|
  {
    if |s| > 0 {
      JoinOfSplit(s[1..], sep);
      var rest := Split(s[1..], sep);
      if s[0] == sep {
        assert Split(s, sep) == [""] + rest;
        assert ([""] + rest)[1..] == rest;
      } else {
        var r := Split(s, sep);
        assert r == [[s[0]] + rest[0]] + rest[1..];
        if |rest| == 1 {
          assert r == [[s[0]] + rest[0]];
        } else {
          assert r[1..] == rest[1..];
          assert Join(rest, sep) == rest[0] + [sep] + Join(rest[1..], sep);
        }
        assert s == [s[0]] + s[1..];
      }
    }
  }

  /** A separator-free prefix glues onto the first piece of whatever follows it. */
  lemma {:induction false} SplitGluesPrefix(a: string, b: string, sep: char)
    requires sep !in a
    ensures Split(a + b, sep) == [a + Split(b, sep)[0]] + Split(b, sep)[1..]
    decreases |a|
  {
    if |a| > 0 {
      SplitGluesPrefix(a[1..], b, sep);
      var sb := Split(b, sep);
      var rest := Split(a[1..] + b, sep);
      assert (a + b)[1..] == a[1..] + b;
      assert (a + b)[0] == a[0] && a[0] != sep;
      assert rest[0] == a[1..] + sb[0] && rest[1..] == sb[1..];
      assert Split(a + b, sep) == [[a[0]] + rest[0]] + rest[1..];
      assert [a[0]] + (a[1..] + sb[0]) == a + sb[0];
    } else {
      var r := Split(b, sep);
      assert a + b == b && a + r[0] == r[0];
      assert r == [r[0]] + r[1..];
    }
  }

  /** Joining separator-free pieces and splitting again gives back the pieces. */
  lemma {:induction false} SplitOfJoin(parts: seq<string>, sep: char)
    requires |parts| >= 1
    requires forall k :: 0 <= k < |parts| ==> sep !in parts[k]
    ensures Split(Join(parts, sep), sep) == parts
  {
    if |parts| == 1 {
      SplitGluesPrefix(parts[0], "", sep);
      assert parts[0] + "" == parts[0];
    } else {
      var tail := Join(parts[1..], sep);
      SplitOfJoin(parts[1..], sep);
      SplitGluesPrefix(parts[0], [sep] + tail, sep);
      assert parts[0] + [sep] + tail == parts[0] + ([sep] + tail);
      assert ([sep] + tail)[1..] == tail;
      assert Split([sep] + tail, sep) == [""] + parts[1..];
      assert parts[0] + "" == parts[0];
      assert ([""] + parts[1..])[1..] == parts[1..];
      assert Join(parts, sep) == parts[0] + ([sep] + tail);
      assert parts == [parts[0]] + parts[1..];
    }
  }

  /** `lines.filter(q => q.trim() !== '')`. */
  function NonBlank(lines: seq<string>): (r: seq<string>)
    ensures |r| <= |lines|
    ensures forall k :: 0 <= k < |r| ==> !IsBlank(r[k]) && r[k] in lines
    ensures forall k :: 0 <= k < |lines| && !IsBlank(lines[k]) ==> lines[k] in r
  {
    if |lines| == 0 then []
    else if IsBlank(lines[0]) then NonBlank(lines[1..])
    else [lines[0]] + NonBlank(lines[1..])
  }

  /** A list with no blank entry passes the filter unchanged. */
  lemma {:induction false} NonBlankKeepsAll(lines: seq<string>)
    requires forall k :: 0 <= k < |lines| ==> !IsBlank(lines[k])
    ensures NonBlank(lines) == lines
  {
    if |lines| > 0 {
      NonBlankKeepsAll(lines[1..]);
      assert lines == [lines[0]] + lines[1..];
    }
  }

  /** Concatenation is associative; stated once so that proofs can name the regrouping step. */
  lemma SeqAssoc<T>(a: seq<T>, b: seq<T>, c: seq<T>)
    ensures (a + b) + c == a + (b + c)
  {
  }

  /**
   * The filter works line by line: filtering two lists one after the other gives the two
   * results one after the other. With `NonBlankSingle` this fixes the result completely: the
   * kept lines stay in order and each keeps its multiplicity.
   */
  lemma {:induction false} NonBlankConcat(a: seq<string>, b: seq<string>)
    ensures NonBlank(a + b) == NonBlank(a) + NonBlank(b)
    decreases |a|
  {
    if |a| == 0 {
      assert a + b == b;
    } else {
      var x, rest := a[0], a[1..];
      NonBlankConcat(rest, b);
      assert a == [x] + rest;
      SeqAssoc([x], rest, b);
      NonBlankCons(x, rest);
      NonBlankCons(x, rest + b);
      if !IsBlank(x) {
        SeqAssoc([x], NonBlank(rest), NonBlank(b));
      }
    }
  }

  /** Filtering a list that starts with `x` decides `x` first and then filters the rest. */
  lemma NonBlankCons(x: string, rest: seq<string>)
    ensures NonBlank([x] + rest) == if IsBlank(x) then NonBlank(rest) else [x] + NonBlank(rest)
  {
    assert ([x] + rest)[0] == x && ([x] + rest)[1..] == rest;
  }

  /** A single line is kept exactly when it is not blank. */
  lemma NonBlankSingle(x: string)
    ensures NonBlank([x]) == if IsBlank(x) then [] else [x]
  {
    assert [x][1..] == [];
  }

  /** A line break splits the text into the pieces of the part before it followed by those after it. */
  lemma {:induction false} SplitAtSeparator(a: string, b: string, sep: char)
    ensures Split(a + [sep] + b, sep) == Split(a, sep) + Split(b, sep)
    decreases |a|
  {
    var sb := Split(b, sep);
    if |a| == 0 {
      assert a + [sep] + b == [sep] + b;
      SplitCons(sep, b, sep);
    } else {
      var x, rest := a[0], a[1..];
      SplitAtSeparator(rest, b, sep);
      assert a == [x] + rest;
      SeqAssoc([x], rest, [sep]);
      SeqAssoc([x], rest + [sep], b);
      SplitCons(x, rest, sep);
      SplitCons(x, rest + [sep] + b, sep);
      var ra := Split(rest, sep);
      if x == sep {
        SeqAssoc([""], ra, sb);
      } else {
        assert (ra + sb)[0] == ra[0] && (ra + sb)[1..] == ra[1..] + sb;
        SeqAssoc([[x] + ra[0]], ra[1..], sb);
      }
    }
  }

  /** Splitting text that starts with `x` handles `x` first and then splits the rest. */
  lemma SplitCons(x: char, rest: string, sep: char)
    ensures Split([x] + rest, sep) ==
      if x == sep then [""] + Split(rest, sep)
      else [[x] + Split(rest, sep)[0]] + Split(rest, sep)[1..]
  {
    assert ([x] + rest)[0] == x && ([x] + rest)[1..] == rest;
  }

  /** The editor's quote box: one quote per line, blank lines dropped. */
  function ParseQuotes(text: string): (r: seq<string>)
    ensures forall k :: 0 <= k < |r| ==> !IsBlank(r[k]) && '\n' !in r[k]
  {
    NonBlank(Split(text, '\n'))
  }

  /**
   * Quote parsing goes line by line, in order: the text before a line break and the text after
   * it are parsed separately and the results are concatenated; a single line gives itself
   * unless it is blank.
   */
  lemma ParseQuotesByLine(a: string, b: string)
    ensures ParseQuotes(a + "\n" + b) == ParseQuotes(a) + ParseQuotes(b)
    ensures '\n' !in a ==> ParseQuotes(a) == if IsBlank(a) then [] else [a]
  {
    SplitAtSeparator(a, b, '\n');
    NonBlankConcat(Split(a, '\n'), Split(b, '\n'));
    if '\n' !in a {
      NonBlankSingle(a);
      SplitGluesPrefix(a, "", '\n');
      assert a + "" == a;
      assert Split(a, '\n') == [a];
    }
  }

  /**
   * Quotes written into the editor one per line (`quotes.join('\n')`) and read back by the
   * form submission come out as they went in, provided none is blank or spans two lines.
   */
  lemma QuotesRoundTrip(quotes: seq<string>)
    requires forall k :: 0 <= k < |quotes| ==> !IsBlank(quotes[k]) && '\n' !in quotes[k]
    ensures ParseQuotes(Join(quotes, '\n')) == quotes
  {
    if |quotes| == 0 {
      assert Split("", '\n') == [""];
      assert IsBlank("");
    } else {
      SplitOfJoin(quotes, '\n');
      NonBlankKeepsAll(quotes);
    }
  }

  /** `pat` occurs in `s` starting at index `i`. */
  predicate OccursAt(s: string, pat: string, i: int) {
    0 <= i && i + |pat| <= |s| && s[i..i + |pat|] == pat
  }

  /** `i` is where `pat` first occurs in `s`. */
  predicate FirstOccurrence(s: string, pat: string, i: int) {
    OccursAt(s, pat, i) && forall j :: 0 <= j < i ==> !OccursAt(s, pat, j)
  }

  /**
   * The search behind `s.includes(pat)`: the first occurrence of `pat` at or after `k`, with
   * `None` for none. Unlike `indexOf`, a start beyond the end is not clamped; the script only
   * searches from 0.
   */
  function IndexFrom(s: string, pat: string, k: nat): (r: Option<nat>)
    ensures r.Some? ==> k <= r.value && OccursAt(s, pat, r.value)
    ensures r.Some? ==> forall j :: k <= j < r.value ==> !OccursAt(s, pat, j)
    ensures r.None? ==> forall j :: k <= j ==> !OccursAt(s, pat, j)
    decreases |s| - k
  {
    if k + |pat| > |s| then None
    else if s[k..k + |pat|] == pat then Some(k)
    else IndexFrom(s, pat, k + 1)
  }

  /** The first occurrence of `pat` in `s`, if any. */
  function IndexOf(s: string, pat: string): (r: Option<nat>)
    ensures r.Some? ==> OccursAt(s, pat, r.value) && forall j :: 0 <= j < r.value ==> !OccursAt(s, pat, j)
    ensures r.None? <==> forall j :: !OccursAt(s, pat, j)
  {
    IndexFrom(s, pat, 0)
  }

  /** `s.includes(pat)`: `pat` occurs somewhere in `s`. */
  function Contains(s: string, pat: string): (b: bool)
    ensures forall j :: OccursAt(s, pat, j) ==> b
    ensures b ==> IndexOf(s, pat).Some? && OccursAt(s, pat, IndexOf(s, pat).value)
  {
    IndexOf(s, pat).Some?
  }

  /**
   * `s.replace(pat, rep)` with a string pattern: only the first occurrence is replaced. `rep`
   * is inserted literally; the `$` patterns JavaScript expands in it are not modelled, and the
   * script's replacements contain none.
   */
  function ReplaceFirst(s: string, pat: string, rep: string): (r: string)
    ensures !Contains(s, pat) ==> r == s
    ensures forall i :: FirstOccurrence(s, pat, i) ==> r == s[..i] + rep + s[i + |pat|..]
  {
    match IndexOf(s, pat)
    case Some(i) => s[..i] + rep + s[i + |pat|..]
    case None => s
  }
}
