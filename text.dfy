/** The string operations of Rust's standard library that the renderer relies
    on: `split_whitespace`, joining with a separator, `" ".repeat(n)` and
    splitting an output back into its lines. */
module Text {

  /** Rust's `char::is_whitespace`: the Unicode White_Space property. */
  predicate IsWhitespace(c: char) {
    || ('\U{9}' <= c <= '\U{D}')
    || c == ' '
    || c == '\U{85}'
    || c == '\U{A0}'
    || c == '\U{1680}'
    || ('\U{2000}' <= c <= '\U{200A}')
    || c == '\U{2028}'
    || c == '\U{2029}'
    || c == '\U{202F}'
    || c == '\U{205F}'
    || c == '\U{3000}'
  }

  predicate NoWhitespace(s: string) {
    forall k :: 0 <= k < |s| ==> !IsWhitespace(s[k])
  }

  predicate Blank(s: string) {
    forall k :: 0 <= k < |s| ==> IsWhitespace(s[k])
  }

  /** Length of the longest whitespace-free prefix of `s`. */
  function WordLength(s: string): (n: nat)
    ensures n <= |s|
    ensures NoWhitespace(s[..n])
    ensures n < |s| ==> IsWhitespace(s[n])
  {
    if |s| == 0 || IsWhitespace(s[0]) then 0 else 1 + WordLength(s[1..])
  }

  /** `str::split_whitespace`: the maximal whitespace-free runs of `s`, in order. */
  function Words(s: string): (ws: seq<string>)
    ensures forall j :: 0 <= j < |ws| ==> |ws[j]| > 0 && NoWhitespace(ws[j])
    decreases |s|
  {
    if |s| == 0 then []
    else if IsWhitespace(s[0]) then Words(s[1..])
    else
      var n := WordLength(s);
      [s[..n]] + Words(s[n..])
  }

  /** The parts joined with one `sep` between neighbours. */
  function Join(parts: seq<string>, sep: char): string {
    if |parts| == 0 then []
    else if |parts| == 1 then parts[0]
    else Join(parts[..|parts| - 1], sep) + [sep] + parts[|parts| - 1]
  }

  /** `s` cut at every `sep`; always at least one piece. */
  function Split(s: string, sep: char): (pieces: seq<string>)
    ensures |pieces| > 0
  {
    if |s| == 0 then [[]]
    else
      var rest := Split(s[1..], sep);
      if s[0] == sep then [[]] + rest else [[s[0]] + rest[0]] + rest[1..]
  }

  /** `" ".repeat(n)`. */
  function Spaces(n: nat): (s: string)
    ensures |s| == n && forall k :: 0 <= k < n ==> s[k] == ' '
  {
    seq(n, _ => ' ')
  }

  /** The whitespace runs of a text are its word separators: it has no words
      exactly when it is blank. */
  lemma {:induction false} WordsEmptyIffBlank(s: string)
    ensures Words(s) == [] <==> Blank(s)
    decreases |s|
  {
    if |s| > 0 {
      if IsWhitespace(s[0]) {
        WordsEmptyIffBlank(s[1..]);
        assert Blank(s) <==> Blank(s[1..]) by {
          if Blank(s[1..]) {
            forall k | 0 <= k < |s| ensures IsWhitespace(s[k]) {
              if k > 0 { assert s[k] == s[1..][k - 1]; }
            }
          }
        }
      } else {
        assert !Blank(s);
      }
    }
  }

  /** A non-empty whitespace-free text is one word. */
  lemma {:induction false} WordsOfOneWord(s: string)
    requires |s| > 0 && NoWhitespace(s)
    ensures Words(s) == [s]
  {
    var n := WordLength(s);
    assert n == |s|;
    assert s[..n] == s && s[n..] == [];
  }

  /** Leading whitespace contributes no word. */
  lemma WordsSkipsLeadingWhitespace(c: char, rest: string)
    requires IsWhitespace(c)
    ensures Words([c] + rest) == Words(rest)
  {
    assert ([c] + rest)[1..] == rest;
  }

  /** A word followed by a whitespace character starts the word list. */
  lemma {:induction false} WordsOfWordThenSpace(w: string, c: char, rest: string)
    requires |w| > 0 && NoWhitespace(w) && IsWhitespace(c)
    ensures Words(w + [c] + rest) == [w] + Words(rest)
  {
    var s := w + [c] + rest;
    var n := WordLength(s);
    assert n == |w| by {
      assert forall k :: 0 <= k < |w| ==> s[k] == w[k];
      assert IsWhitespace(s[|w|]);
    }
    assert s[..n] == w;
    assert s[n..] == [c] + rest;
    WordsSkipsLeadingWhitespace(c, rest);
  }

  /** Joining one more part appends the separator and the part. */
  lemma JoinSnoc(parts: seq<string>, p: string, sep: char)
    requires |parts| > 0
    ensures Join(parts + [p], sep) == Join(parts, sep) + [sep] + p
  {
    assert (parts + [p])[..|parts|] == parts;
  }

  /** Joining two non-empty lists of parts puts one separator between the halves. */
  lemma {:induction false} JoinAppend(a: seq<string>, b: seq<string>, sep: char)
    requires |a| > 0 && |b| > 0
    ensures Join(a + b, sep) == Join(a, sep) + [sep] + Join(b, sep)
    decreases |b|
  {
    if |b| == 1 {
      JoinSnoc(a, b[0], sep);
      assert a + b == a + [b[0]];
    } else {
      var b' := b[..|b| - 1];
      var last := b[|b| - 1];
      assert b == b' + [last];
      assert a + b == (a + b') + [last];
      JoinAppend(a, b', sep);
      JoinSnoc(a + b', last, sep);
      JoinSnoc(b', last, sep);
    }
  }

  /** Splitting at a separator that was inserted splits both sides. */
  lemma {:induction false} SplitAtSeparator(a: string, b: string, sep: char)
    ensures Split(a + [sep] + b, sep) == Split(a, sep) + Split(b, sep)
    decreases |a|
  {
    var s := a + [sep] + b;
    if |a| == 0 {
      assert s[1..] == b;
    } else {
      assert s[1..] == a[1..] + [sep] + b;
      SplitAtSeparator(a[1..], b, sep);
    }
  }

  /** A string without the separator is a single piece. */
  lemma {:induction false} SplitWithoutSeparator(s: string, sep: char)
    requires forall k :: 0 <= k < |s| ==> s[k] != sep
    ensures Split(s, sep) == [s]
    decreases |s|
  {
    if |s| > 0 {
      SplitWithoutSeparator(s[1..], sep);
      assert [s[0]] + s[1..] == s;
    }
  }

  /** Splitting undoes joining, when no part contains the separator. */
  lemma {:induction false} SplitJoin(parts: seq<string>, sep: char)
    requires |parts| > 0
    requires forall j, k :: 0 <= j < |parts| && 0 <= k < |parts[j]| ==> parts[j][k] != sep
    ensures Split(Join(parts, sep), sep) == parts
    decreases |parts|
  {
    if |parts| == 1 {
      SplitWithoutSeparator(parts[0], sep);
    } else {
      var init := parts[..|parts| - 1];
      var last := parts[|parts| - 1];
      SplitJoin(init, sep);
      SplitWithoutSeparator(last, sep);
      SplitAtSeparator(Join(init, sep), last, sep);
      assert init + [last] == parts;
    }
  }
}
