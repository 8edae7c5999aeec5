/** String operations of Rust's standard library that the controller relies
    on: `str::find`, `[&str]::join`, `str::split`, `str::split_whitespace`
    and the ordering `<` on `str`, each with the laws that make it usable. */
module Text {
  import opened Io

  /** `pat` occurs in `s` starting at index `i`. */
  predicate OccursAt(s: string, pat: string, i: nat) {
    i + |pat| <= |s| && s[i..i + |pat|] == pat
  }

  /** The leftmost occurrence of `pat` in `s` at or after `from`. */
  function IndexOf(s: string, pat: string, from: nat): (r: Option<nat>)
    ensures r.Some? ==> from <= r.value && OccursAt(s, pat, r.value)
    ensures r.Some? ==> forall j :: from <= j < r.value ==> !OccursAt(s, pat, j)
    ensures r.None? ==> forall j :: from <= j ==> !OccursAt(s, pat, j)
    decreases |s| - from
  {
    if |s| < from + |pat| then None
    else if OccursAt(s, pat, from) then Some(from)
    else IndexOf(s, pat, from + 1)
  }

  /** `xs.join(sep)`: the pieces with `sep` between neighbours. */
  function Join(xs: seq<string>, sep: string): string {
    if |xs| == 0 then []
    else if |xs| == 1 then xs[0]
    else xs[0] + sep + Join(xs[1..], sep)
  }

  /** The text before the leftmost occurrence of `sep` does not contain
      `sep`. */
  lemma PrefixBeforeFirst(s: string, sep: string, i: nat)
    requires sep != [] && i <= |s|
    requires forall j :: 0 <= j < i ==> !OccursAt(s, sep, j)
    ensures IndexOf(s[..i], sep, 0).None?
  {
    forall j: nat ensures !OccursAt(s[..i], sep, j) {
      if j + |sep| <= i {
        assert s[..i][j..j + |sep|] == s[j..j + |sep|];
        assert !OccursAt(s, sep, j);
      }
    }
  }

  /** `s.split(sep)` for a non-empty separator: the text between
      successive leftmost, non-overlapping occurrences of `sep`. */
  function Split(s: string, sep: string): (r: seq<string>)
    requires sep != []
    ensures |r| >= 1
    ensures Join(r, sep) == s
    ensures forall k :: 0 <= k < |r| ==> IndexOf(r[k], sep, 0).None?
    decreases |s|
  {
    match IndexOf(s, sep, 0)
    case None => [s]
    case Some(i) =>
      var rest := Split(s[i + |sep|..], sep);
      PrefixBeforeFirst(s, sep, i);
      assert Join([s[..i]] + rest, sep) == s[..i] + sep + Join(rest, sep) by {
        assert ([s[..i]] + rest)[1..] == rest;
      }
      assert s == s[..i] + sep + s[i + |sep|..];
      [s[..i]] + rest
  }

  /** If `x` does not contain the first character of `sep`, the leftmost
      occurrence of `sep` in `x + sep + rest` is the one right after `x`. */
  lemma FirstOccurrenceAfter(x: string, sep: string, rest: string)
    requires sep != [] && sep[0] !in x
    ensures IndexOf(x + sep + rest, sep, 0) == Some(|x|)
  {
    var s := x + sep + rest;
    assert OccursAt(s, sep, |x|) by { assert s[|x|..|x| + |sep|] == sep; }
    forall j: nat | j < |x| ensures !OccursAt(s, sep, j) {
      assert s[j] == x[j];
      HeadMismatch(s, sep, j);
    }
  }

  /** A concatenation occurs exactly where its first part occurs and its
      second part follows. */
  lemma OccursConcat(s: string, a: string, b: string, i: nat)
    ensures OccursAt(s, a + b, i) <==> OccursAt(s, a, i) && OccursAt(s, b, i + |a|)
  {
    if i + |a| + |b| <= |s| {
      assert s[i..i + |a| + |b|] == s[i..i + |a|] + s[i + |a|..i + |a| + |b|];
      if OccursAt(s, a + b, i) {
        assert s[i..i + |a|] == (a + b)[..|a|];
        assert s[i + |a|..i + |a| + |b|] == (a + b)[|a|..];
      }
    }
  }

  /** A pattern cannot occur where its first character is missing. */
  lemma HeadMismatch(s: string, pat: string, j: nat)
    requires pat != [] && (j >= |s| || s[j] != pat[0])
    ensures !OccursAt(s, pat, j)
  {
    if j + |pat| <= |s| { assert s[j..j + |pat|][0] == s[j]; }
  }

  /** A one-character pattern occurs exactly where that character is. */
  lemma OccursAtChar(s: string, c: char, j: nat)
    ensures OccursAt(s, [c], j) <==> j < |s| && s[j] == c
  {
    if j < |s| { assert s[j..j + 1] == [s[j]]; }
  }

  /** A string without the first character of `sep` has no occurrence of it. */
  lemma NoOccurrence(x: string, sep: string)
    requires sep != [] && sep[0] !in x
    ensures IndexOf(x, sep, 0).None?
  {
    forall j: nat ensures !OccursAt(x, sep, j) {
      HeadMismatch(x, sep, j);
    }
  }

  /** Splitting undoes joining when no piece holds the separator's first
      character: `Split` is the inverse of `Join` on such lists. */
  lemma {:induction false} SplitJoin(xs: seq<string>, sep: string)
    requires sep != [] && |xs| >= 1
    requires forall k :: 0 <= k < |xs| ==> sep[0] !in xs[k]
    ensures Split(Join(xs, sep), sep) == xs
    decreases |xs|
  {
    if |xs| == 1 {
      NoOccurrence(xs[0], sep);
    } else {
      SplitStep(xs[0], sep, Join(xs[1..], sep));
      SplitJoin(xs[1..], sep);
      assert xs == [xs[0]] + xs[1..];
    }
  }

  /** A piece free of the separator's first character, then the separator:
      the piece is the first field. */
  lemma SplitStep(x: string, sep: string, tail: string)
    requires sep != [] && sep[0] !in x
    ensures Split(x + sep + tail, sep) == [x] + Split(tail, sep)
  {
    FirstOccurrenceAfter(x, sep, tail);
    var s := x + sep + tail;
    assert s[|x| + |sep|..] == tail;
    assert s[..|x|] == x;
  }

  /** A character that is in no piece and not in the separator is not in
      the joined text. */
  lemma {:induction false} JoinExcludes(xs: seq<string>, sep: string, c: char)
    requires c !in sep
    requires forall k :: 0 <= k < |xs| ==> c !in xs[k]
    ensures c !in Join(xs, sep)
    decreases |xs|
  {
    if |xs| > 1 { JoinExcludes(xs[1..], sep, c); }
  }

  /** Number of occurrences of `c` in `s`. */
  function CountChar(s: string, c: char): nat {
    if s == [] then 0 else (if s[0] == c then 1 else 0) + CountChar(s[1..], c)
  }

  lemma {:induction false} CountCharAppend(a: string, b: string, c: char)
    ensures CountChar(a + b, c) == CountChar(a, c) + CountChar(b, c)
    decreases |a|
  {
    if a != [] {
      assert (a + b)[1..] == a[1..] + b;
      CountCharAppend(a[1..], b, c);
    } else {
      assert a + b == b;
    }
  }

  lemma {:induction false} CountCharAbsent(s: string, c: char)
    requires forall j :: 0 <= j < |s| ==> s[j] != c
    ensures CountChar(s, c) == 0
    decreases |s|
  {
    if s != [] { CountCharAbsent(s[1..], c); }
  }

  /** Splitting on a one-character separator yields one more field than
      there are separators in the text. */
  lemma {:induction false} SplitFieldCount(s: string, c: char)
    ensures |Split(s, [c])| == CountChar(s, c) + 1
    decreases |s|
  {
    match IndexOf(s, [c], 0)
    case None =>
      forall j | 0 <= j < |s| ensures s[j] != c {
        OccursAtChar(s, c, j);
      }
      CountCharAbsent(s, c);
    case Some(i) =>
      forall j | 0 <= j < i ensures s[..i][j] != c {
        OccursAtChar(s, c, j);
      }
      CountCharAbsent(s[..i], c);
      OccursAtChar(s, c, i);
      assert s == s[..i] + ([c] + s[i + 1..]);
      CountCharAppend(s[..i], [c] + s[i + 1..], c);
      assert ([c] + s[i + 1..])[1..] == s[i + 1..];
      SplitFieldCount(s[i + 1..], c);
  }

  /** The characters `split_whitespace` separates on (the ASCII ones). */
  predicate IsWhitespace(c: char) {
    c == ' ' || c == '\t' || c == '\n' || c == '\r' || c == '\U{000B}' || c == '\U{000C}'
  }

  /** A token as `split_whitespace` yields it: non-empty, no whitespace. */
  predicate IsWord(w: string) {
    w != [] && forall j :: 0 <= j < |w| ==> !IsWhitespace(w[j])
  }

  /** Length of the run of non-whitespace characters that starts `s`. */
  function WordLength(s: string): (n: nat)
    ensures n <= |s|
    ensures forall j :: 0 <= j < n ==> !IsWhitespace(s[j])
    ensures n < |s| ==> IsWhitespace(s[n])
  {
    if s == [] || IsWhitespace(s[0]) then 0 else 1 + WordLength(s[1..])
  }

  /** `s.split_whitespace()`: the maximal runs of non-whitespace, in order. */
  function Tokens(s: string): (ts: seq<string>)
    ensures forall k :: 0 <= k < |ts| ==> IsWord(ts[k])
    decreases |s|
  {
    if s == [] then []
    else if IsWhitespace(s[0]) then Tokens(s[1..])
    else
      var n := WordLength(s);
      [s[..n]] + Tokens(s[n..])
  }

  lemma {:induction false} WordLengthOfWord(w: string, tail: string)
    requires IsWord(w)
    requires tail == [] || IsWhitespace(tail[0])
    ensures WordLength(w + tail) == |w|
    decreases |w|
  {
    assert (w + tail)[1..] == w[1..] + tail;
    if |w| > 1 {
      WordLengthOfWord(w[1..], tail);
    } else {
      assert w[1..] + tail == tail;
    }
  }

  /** A word followed by a space is the first token. */
  lemma TokensAfterWord(w: string, rest: string)
    requires IsWord(w)
    ensures Tokens(w + " " + rest) == [w] + Tokens(rest)
  {
    var s := w + " " + rest;
    assert s == w + (" " + rest);
    WordLengthOfWord(w, " " + rest);
    assert s[..|w|] == w;
    assert s[|w|..] == " " + rest;
    assert (" " + rest)[1..] == rest;
  }

  /** Tokenising a space-separated list of words gives back the words: a
      list file holding one MAC per whitespace-separated token is read back
      exactly. */
  lemma {:induction false} TokensOfJoin(ws: seq<string>)
    requires forall k :: 0 <= k < |ws| ==> IsWord(ws[k])
    ensures Tokens(Join(ws, " ")) == ws
    decreases |ws|
  {
    if |ws| == 1 {
      WordLengthOfWord(ws[0], []);
      assert ws[0] + [] == ws[0];
      assert ws[0][|ws[0]|..] == [];
    } else if |ws| > 1 {
      TokensAfterWord(ws[0], Join(ws[1..], " "));
      TokensOfJoin(ws[1..]);
      assert ws == [ws[0]] + ws[1..];
    }
  }

  /** A run of whitespace only (possibly empty). */
  predicate AllWhite(ws: string) {
    forall j :: 0 <= j < |ws| ==> IsWhitespace(ws[j])
  }

  /** Whitespace in front of the text adds no token. */
  lemma {:induction false} TokensSkipWhite(ws: string, rest: string)
    requires AllWhite(ws)
    ensures Tokens(ws + rest) == Tokens(rest)
    decreases |ws|
  {
    if ws != [] {
      assert (ws + rest)[1..] == ws[1..] + rest;
      TokensSkipWhite(ws[1..], rest);
    } else {
      assert ws + rest == rest;
    }
  }

  /** A word on its own is one token. */
  lemma TokensOfWord(w: string)
    requires IsWord(w)
    ensures Tokens(w) == [w]
  {
    WordLengthOfWord(w, []);
    assert w + [] == w;
    assert w[|w|..] == [];
  }

  /** A word followed by any non-empty run of whitespace is the first token,
      and tokenising resumes after the run. */
  lemma TokensAfterGap(w: string, ws: string, rest: string)
    requires IsWord(w) && ws != [] && AllWhite(ws)
    ensures Tokens(w + ws + rest) == [w] + Tokens(rest)
  {
    var s := w + ws + rest;
    assert s == w + (ws + rest);
    WordLengthOfWord(w, ws + rest);
    assert s[..|w|] == w;
    assert s[|w|..] == ws + rest;
    TokensSkipWhite(ws, rest);
  }

  /** Words laid out each followed by its gap of whitespace. */
  function Layout(ws: seq<string>, gaps: seq<string>): string
    requires |gaps| == |ws|
  {
    if ws == [] then [] else ws[0] + gaps[0] + Layout(ws[1..], gaps[1..])
  }

  /** Every word is a token, every gap is whitespace, and every gap but the
      last is non-empty. */
  predicate Separated(ws: seq<string>, gaps: seq<string>)
    decreases |ws|
  {
    |gaps| == |ws|
    && (ws != [] ==>
          IsWord(ws[0]) && AllWhite(gaps[0]) && (|ws| > 1 ==> gaps[0] != [])
          && Separated(ws[1..], gaps[1..]))
  }

  /** Words with whitespace gaps, every gap but the last non-empty, are
      separated. */
  lemma {:induction false} SeparatedOfGaps(ws: seq<string>, gaps: seq<string>)
    requires |gaps| == |ws|
    requires forall k :: 0 <= k < |ws| ==> IsWord(ws[k]) && AllWhite(gaps[k])
    requires forall k :: 0 <= k < |gaps| - 1 ==> gaps[k] != []
    ensures Separated(ws, gaps)
    decreases |ws|
  {
    if ws != [] {
      assert forall k :: 0 <= k < |ws| - 1 ==> ws[1..][k] == ws[k + 1] && gaps[1..][k] == gaps[k + 1];
      SeparatedOfGaps(ws[1..], gaps[1..]);
    }
  }

  /** Tokenising words separated by any whitespace, with any whitespace
      before the first and after the last (one per line, runs of blanks,
      tabs, a trailing newline), gives back exactly the words in order. */
  lemma TokensOfLayout(lead: string, ws: seq<string>, gaps: seq<string>)
    requires AllWhite(lead) && Separated(ws, gaps)
    ensures Tokens(lead + Layout(ws, gaps)) == ws
  {
    TokensSkipWhite(lead, Layout(ws, gaps));
    TokensOfSeparated(ws, gaps);
  }

  lemma {:induction false} TokensOfSeparated(ws: seq<string>, gaps: seq<string>)
    requires Separated(ws, gaps)
    ensures Tokens(Layout(ws, gaps)) == ws
    decreases |ws|
  {
    if ws != [] {
      var rest := Layout(ws[1..], gaps[1..]);
      TokensOfSeparated(ws[1..], gaps[1..]);
      if gaps[0] == [] {
        assert ws[0] + gaps[0] + rest == ws[0];
        TokensOfWord(ws[0]);
      } else {
        TokensAfterGap(ws[0], gaps[0], rest);
      }
      assert ws == [ws[0]] + ws[1..];
    }
  }

  /** Laid-out words start with the first word's first character. */
  lemma LayoutHead(ws: seq<string>, gaps: seq<string>)
    requires Separated(ws, gaps) && ws != []
    ensures Layout(ws, gaps) != [] && !IsWhitespace(Layout(ws, gaps)[0])
  {
    assert Layout(ws, gaps) == ws[0] + (gaps[0] + Layout(ws[1..], gaps[1..]));
  }

  /** One more word and gap in front of a separated layout. */
  lemma SeparatedCons(w: string, l: string, ts: seq<string>, g: seq<string>)
    requires IsWord(w) && AllWhite(l) && Separated(ts, g)
    requires ts != [] ==> l != []
    ensures Separated([w] + ts, [l] + g)
    ensures Layout([w] + ts, [l] + g) == w + l + Layout(ts, g)
  {
    assert ([w] + ts)[1..] == ts && ([l] + g)[1..] == g;
  }

  lemma TokensDropWhite(s: string)
    requires s != [] && IsWhitespace(s[0])
    ensures Tokens(s) == Tokens(s[1..])
  {
  }

  lemma TokensDropWord(s: string)
    requires s != [] && !IsWhitespace(s[0])
    ensures Tokens(s) == [s[..WordLength(s)]] + Tokens(s[WordLength(s)..])
  {
  }

  lemma AllWhiteCons(c: char, l: string)
    requires IsWhitespace(c) && AllWhite(l)
    ensures AllWhite([c] + l)
  {
    assert forall j :: 1 <= j < |[c] + l| ==> ([c] + l)[j] == l[j - 1];
  }

  /** A word in front of whitespace and a separated layout is one more
      word of the layout, the whitespace becoming its gap. */
  lemma CoverWord(w: string, rest: string, l: string, ts: seq<string>, g: seq<string>)
    requires IsWord(w) && AllWhite(l) && Separated(ts, g)
    requires rest == l + Layout(ts, g)
    requires rest != [] ==> IsWhitespace(rest[0])
    ensures Separated([w] + ts, [l] + g)
    ensures w + rest == Layout([w] + ts, [l] + g)
  {
    if ts != [] {
      LayoutHead(ts, g);
    }
    SeparatedCons(w, l, ts, g);
  }

  /** Conversely, every text is leading whitespace followed by its tokens,
      each followed by its gap: the tokens are the maximal non-whitespace
      runs, in order, and nothing but whitespace lies between them. */
  lemma {:induction false} TokensCover(s: string) returns (lead: string, gaps: seq<string>)
    ensures AllWhite(lead) && Separated(Tokens(s), gaps)
    ensures s == lead + Layout(Tokens(s), gaps)
    decreases |s|
  {
    if s == [] {
      lead, gaps := [], [];
    } else if IsWhitespace(s[0]) {
      var l, g := TokensCover(s[1..]);
      CoverWhiteStep(s, l, g);
      lead, gaps := [s[0]] + l, g;
    } else {
      var l, g := TokensCover(s[WordLength(s)..]);
      CoverWordStep(s, l, g);
      lead, gaps := [], [l] + g;
    }
  }

  /** The cover of the text behind a leading whitespace character, with
      that character added to the leading whitespace. */
  lemma CoverWhiteStep(s: string, l: string, g: seq<string>)
    requires s != [] && IsWhitespace(s[0])
    requires AllWhite(l) && Separated(Tokens(s[1..]), g)
    requires s[1..] == l + Layout(Tokens(s[1..]), g)
    ensures AllWhite([s[0]] + l) && Separated(Tokens(s), g)
    ensures s == [s[0]] + l + Layout(Tokens(s), g)
  {
    TokensDropWhite(s);
    AllWhiteCons(s[0], l);
    AppendAssoc([s[0]], l, Layout(Tokens(s), g));
    assert s == [s[0]] + s[1..];
  }

  /** The cover of the text behind a leading word, with that word and the
      whitespace after it in front. */
  lemma CoverWordStep(s: string, l: string, g: seq<string>)
    requires s != [] && !IsWhitespace(s[0])
    requires AllWhite(l) && Separated(Tokens(s[WordLength(s)..]), g)
    requires s[WordLength(s)..] == l + Layout(Tokens(s[WordLength(s)..]), g)
    ensures Separated(Tokens(s), [l] + g)
    ensures s == [] + Layout(Tokens(s), [l] + g)
  {
    var n := WordLength(s);
    var w, rest := s[..n], s[n..];
    TokensDropWord(s);
    CoverWord(w, rest, l, Tokens(rest), g);
    assert s == w + rest;
    assert [] + s == s;
  }

  lemma AppendAssoc(a: string, b: string, c: string)
    ensures a + (b + c) == a + b + c
  {
  }

  /** `a < b` on Rust strings: lexicographic by character, a proper prefix
      before the longer string. */
  predicate Below(a: string, b: string)
    decreases |a|
  {
    b != [] && (a == [] || a[0] < b[0] || (a[0] == b[0] && Below(a[1..], b[1..])))
  }

  /** `a <= b` on Rust strings. */
  predicate AtMost(a: string, b: string) {
    a == b || Below(a, b)
  }

  lemma {:induction false} BelowIrreflexive(a: string)
    ensures !Below(a, a)
    decreases |a|
  {
    if a != [] { BelowIrreflexive(a[1..]); }
  }

  lemma {:induction false} BelowTransitive(a: string, b: string, c: string)
    requires Below(a, b) && Below(b, c)
    ensures Below(a, c)
    decreases |a|
  {
    if a != [] && a[0] == b[0] && b[0] == c[0] {
      BelowTransitive(a[1..], b[1..], c[1..]);
    }
  }

  lemma {:induction false} BelowTotal(a: string, b: string)
    ensures a == b || Below(a, b) || Below(b, a)
    decreases |a|
  {
    if a != [] && b != [] && a[0] == b[0] {
      BelowTotal(a[1..], b[1..]);
      if a[1..] == b[1..] { assert a == [a[0]] + a[1..] && b == [b[0]] + b[1..]; }
    }
  }

  lemma BelowAsymmetric(a: string, b: string)
    requires Below(a, b)
    ensures !Below(b, a) && a != b
  {
    BelowIrreflexive(a);
    if Below(b, a) { BelowTransitive(a, b, a); }
  }

  lemma AtMostTransitive(a: string, b: string, c: string)
    requires AtMost(a, b) && AtMost(b, c)
    ensures AtMost(a, c)
  {
    if a != b && b != c { BelowTransitive(a, b, c); }
  }

  lemma AtMostAntisymmetric(a: string, b: string)
    requires AtMost(a, b) && AtMost(b, a)
    ensures a == b
  {
    if a != b { BelowAsymmetric(a, b); }
  }
}
