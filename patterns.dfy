/** The fixed regular expressions the router code applies to response
    pages, each written out as a matcher at one position, together with the
    two ways the code uses them: the leftmost match (`is_match`,
    `captures`) and every non-overlapping match from left to right
    (`captures_iter`). */
module Patterns {
  import opened Io
  import opened Text

  /** The patterns, by the name of the constant that holds them. */
  datatype Pattern =
    | LoginValidate   // login.html
    | MacFltStatus    // MacFltEnable=([01]);
    | MacFltMode      // MacFltMode=([01]);
    | MacFltList      // Mac:"([^"]+)"
    | ClientsList     // client_list\[\d+\]='([^']+)';

  /** The literal text before the digit of the two flag patterns. */
  const EnableFlag: string := "MacFltEnable="
  const ModeFlag: string := "MacFltMode="

  /** One match: the text `start..end` of the haystack, and the text of the
      pattern's capture group (empty for a pattern without one). */
  datatype Capture = Capture(start: nat, end: nat, group: string)

  predicate IsDigit(c: char) {
    '0' <= c <= '9'
  }

  predicate AllDigits(t: string) {
    forall j :: 0 <= j < |t| ==> IsDigit(t[j])
  }

  /** `login.html` at `i`: the dot is unescaped, so any character other than
      a line feed may stand between `login` and `html`. */
  function LoginValidateAt(s: string, i: nat): Option<Capture> {
    if i + 10 <= |s| && OccursAt(s, "login", i) && s[i + 5] != '\n' && OccursAt(s, "html", i + 6)
    then Some(Capture(i, i + 10, []))
    else None
  }

  /** `<name>([01]);` at `i`, capturing the digit. */
  function FlagAt(name: string, s: string, i: nat): (m: Option<Capture>)
    ensures m.Some? <==> OccursAt(s, name + "0;", i) || OccursAt(s, name + "1;", i)
    ensures m.Some? ==> (m.value.group == "0" || m.value.group == "1")
    ensures m.Some? ==> m.value.end == i + |name| + 2 && OccursAt(s, name + m.value.group + ";", i)
  {
    var k := i + |name|;
    if OccursAt(s, name, i) && k + 2 <= |s| && (s[k] == '0' || s[k] == '1') && s[k + 1] == ';'
    then
      assert s[i..k + 2] == s[i..k] + s[k..k + 1] + ";";
      Some(Capture(i, k + 2, s[k..k + 1]))
    else
      OccurrenceSplits(name, s, i, "0;");
      OccurrenceSplits(name, s, i, "1;");
      None
  }

  /** What an occurrence of `name` followed by a two-character tail says
      about the characters at `i`. */
  lemma OccurrenceSplits(name: string, s: string, i: nat, tail: string)
    requires |tail| == 2 && tail[1] == ';'
    ensures OccursAt(s, name + tail, i) ==>
      OccursAt(s, name, i) && s[i + |name|] == tail[0] && s[i + |name| + 1] == ';'
  {
    var k := i + |name|;
    if OccursAt(s, name + tail, i) {
      assert s[i..k + 2] == name + tail;
      assert s[i..k] == (name + tail)[..|name|];
    }
  }

  /** `Mac:"([^"]+)"` at `i`: the greedy `[^"]+` runs to the first quote
      after the opening one, and must not be empty. */
  function MacFltListAt(s: string, i: nat): (m: Option<Capture>)
    ensures m.Some? ==> m.value.group != [] && '"' !in m.value.group
    ensures m.Some? ==> i + |m.value.group| + 6 == m.value.end <= |s|
    ensures m.Some? ==> s[i..m.value.end] == "Mac:\"" + m.value.group + "\""
  {
    if OccursAt(s, "Mac:\"", i) then
      match IndexOf(s, "\"", i + 5)
      case None => None
      case Some(q) =>
        if q == i + 5 then None
        else
          var g := s[i + 5..q];
          assert '"' !in g by {
            forall j | 0 <= j < |g| ensures g[j] != '"' {
              OccursAtChar(s, '"', i + 5 + j);
            }
          }
          OccursAtChar(s, '"', q);
          assert s[i..q + 1] == s[i..i + 5] + g + "\"";
          Some(Capture(i, q + 1, g))
    else None
  }

  /** Length of the run of ASCII digits that starts `t`. */
  function DigitRun(t: string): (n: nat)
    ensures n <= |t|
    ensures AllDigits(t[..n])
    ensures n < |t| ==> !IsDigit(t[n])
  {
    if t == [] || !IsDigit(t[0]) then 0
    else
      var n := 1 + DigitRun(t[1..]);
      assert t[..n] == [t[0]] + t[1..][..n - 1];
      n
  }

  /** `]='([^']+)';` at `d`: the record runs to the first apostrophe,
      which must be followed by a semicolon. */
  function RecordAt(s: string, d: nat): (m: Option<Capture>)
    ensures m.Some? ==> m.value.group != [] && d + |m.value.group| + 5 == m.value.end <= |s|
  {
    if !OccursAt(s, "]='", d) then None
    else
      match IndexOf(s, "'", d + 3)
      case None => None
      case Some(q) =>
        if q == d + 3 || q + 2 > |s| || s[q + 1] != ';' then None
        else Some(Capture(d, q + 2, s[d + 3..q]))
  }

  /** A record match is `]='`, an apostrophe-free group, then `';`. */
  lemma RecordAtSound(s: string, d: nat)
    ensures var m := RecordAt(s, d);
      m.Some? ==> '\'' !in m.value.group && s[d..m.value.end] == "]='" + m.value.group + "';"
  {
    if OccursAt(s, "]='", d) && IndexOf(s, "'", d + 3).Some? {
      var q := IndexOf(s, "'", d + 3).value;
      if RecordAt(s, d).Some? {
        var g := s[d + 3..q];
        forall j | 0 <= j < |g| ensures g[j] != '\'' {
          OccursAtChar(s, '\'', d + 3 + j);
        }
        OccursAtChar(s, '\'', q);
        assert s[d..q + 2] == s[d..d + 3] + g + s[q..q + 2];
      }
    }
  }

  /** `client_list\[\d+\]='([^']+)';` at `i`: the digits run as far as
      they go, then the record follows. */
  function ClientsListAt(s: string, i: nat): (m: Option<Capture>)
    ensures m.Some? ==> m.value.group != [] && i + 17 + |m.value.group| < m.value.end <= |s|
  {
    if !OccursAt(s, "client_list[", i) then None
    else
      var n := DigitRun(s[i + 12..]);
      var d := i + 12 + n;
      if n == 0 then None
      else
        match RecordAt(s, d)
        case None => None
        case Some(r) => Some(Capture(i, r.end, r.group))
  }

  /** A `client_list` match at `i` is `client_list[`, a non-empty run of
      digits up to `d`, then `]='`, a non-empty group free of apostrophes,
      and `';`. */
  lemma ClientsListAtSound(s: string, i: nat, m: Capture)
    requires ClientsListAt(s, i) == Some(m)
    ensures var d := m.end - |m.group| - 5;
      OccursAt(s, "client_list[", i) && i + 12 < d
      && AllDigits(s[i + 12..d])
      && '\'' !in m.group
      && s[d..m.end] == "]='" + m.group + "';"
  {
    var n := DigitRun(s[i + 12..]);
    var d := i + 12 + n;
    RecordAtSound(s, d);
    assert s[i + 12..d] == s[i + 12..][..n];
  }


  /** The match of `p` that starts at `i`, if any. */
  function MatchAt(p: Pattern, s: string, i: nat): (m: Option<Capture>)
    ensures m.Some? ==> m.value.start == i && i < m.value.end <= |s|
  {
    match p
    case LoginValidate => LoginValidateAt(s, i)
    case MacFltStatus => FlagAt(EnableFlag, s, i)
    case MacFltMode => FlagAt(ModeFlag, s, i)
    case MacFltList => MacFltListAt(s, i)
    case ClientsList => ClientsListAt(s, i)
  }

  /** No match of `p` starts in `a..b`. */
  predicate NoMatchBetween(p: Pattern, s: string, a: nat, b: nat) {
    forall j :: a <= j < b ==> MatchAt(p, s, j).None?
  }

  /** No match of `p` starts at or after `a` (a match starts before the end). */
  predicate NoMatchFrom(p: Pattern, s: string, a: nat) {
    forall j :: a <= j < |s| ==> MatchAt(p, s, j).None?
  }

  /** The leftmost match of `p` that starts at or after `from`. */
  function Find(p: Pattern, s: string, from: nat): (r: Option<Capture>)
    ensures r.Some? ==> from <= r.value.start && MatchAt(p, s, r.value.start) == r
    ensures r.Some? ==> NoMatchBetween(p, s, from, r.value.start)
    ensures r.None? <==> NoMatchFrom(p, s, from)
    decreases |s| - from
  {
    if |s| <= from then None
    else
      match MatchAt(p, s, from)
      case Some(m) => Some(m)
      case None =>
        var r := Find(p, s, from + 1);
        NoMatchExtends(p, s, from, if r.Some? then r.value.start else |s|);
        r
  }

  /** A position without a match extends a stretch without one leftwards. */
  lemma NoMatchExtends(p: Pattern, s: string, a: nat, b: nat)
    requires MatchAt(p, s, a).None?
    ensures NoMatchBetween(p, s, a + 1, b) ==> NoMatchBetween(p, s, a, b)
    ensures NoMatchFrom(p, s, a + 1) ==> NoMatchFrom(p, s, a)
  {
  }

  /** `ms` is what a scan from `from` finds: each match is the leftmost one
      from where the search resumed (`from` for the first, the end of the
      previous match for the others), and none remains after the last. */
  predicate IsScan(p: Pattern, s: string, from: nat, ms: seq<Capture>)
    decreases |ms|
  {
    if ms == [] then NoMatchFrom(p, s, from)
    else
      from <= ms[0].start && MatchAt(p, s, ms[0].start) == Some(ms[0])
      && NoMatchBetween(p, s, from, ms[0].start)
      && IsScan(p, s, ms[0].end, ms[1..])
  }

  /** `captures_iter`: the matches of `p` from `from` on, each search
      resuming at the end of the previous match. */
  function FindAll(p: Pattern, s: string, from: nat): (r: seq<Capture>)
    ensures forall k :: 0 <= k < |r| ==> from <= r[k].start && MatchAt(p, s, r[k].start) == Some(r[k])
    decreases |s| - from
  {
    match Find(p, s, from)
    case None => []
    case Some(m) => [m] + FindAll(p, s, m.end)
  }

  /** What `FindAll` returns is a scan: every match, each the leftmost one at
      or after the end of the previous, in document order, and nothing after
      the last. */
  lemma {:induction false} FindAllScans(p: Pattern, s: string, from: nat)
    ensures IsScan(p, s, from, FindAll(p, s, from))
    decreases |s| - from
  {
    match Find(p, s, from)
    case None =>
    case Some(m) =>
      var rest := FindAll(p, s, m.end);
      FindAllScans(p, s, m.end);
      assert ([m] + rest)[1..] == rest;
  }

  /** The capture groups of a list of matches. */
  function Groups(ms: seq<Capture>): (gs: seq<string>)
    ensures |gs| == |ms|
    ensures forall k :: 0 <= k < |ms| ==> gs[k] == ms[k].group
  {
    seq(|ms|, k requires 0 <= k < |ms| => ms[k].group)
  }

  /** A scan resumed where a match starts takes that match, then resumes
      after it. */
  lemma FindAllAt(p: Pattern, s: string, i: nat, m: Capture)
    requires i < |s| && MatchAt(p, s, i) == Some(m)
    ensures FindAll(p, s, i) == [m] + FindAll(p, s, m.end)
  {
  }

  /** A scan resumed at the end of the text finds nothing. */
  lemma FindAllAtEnd(p: Pattern, s: string)
    ensures FindAll(p, s, |s|) == []
  {
  }

  lemma GroupsCons(m: Capture, ms: seq<Capture>)
    ensures Groups([m] + ms) == [m.group] + Groups(ms)
  {
  }

  /** Conversely, `Mac:"g"` with a non-empty, quote-free `g` is a match
      capturing exactly `g`. */
  lemma MacFltListAtComplete(s: string, i: nat, g: string)
    requires g != [] && '"' !in g
    requires OccursAt(s, "Mac:\"" + g + "\"", i)
    ensures MacFltListAt(s, i) == Some(Capture(i, i + |g| + 6, g))
  {
    OccursConcat(s, "Mac:\"" + g, "\"", i);
    OccursConcat(s, "Mac:\"", g, i);
    var q := i + 5 + |g|;
    forall j | i + 5 <= j < q ensures !OccursAt(s, "\"", j) {
      assert s[j] == s[i + 5..q][j - i - 5];
      OccursAtChar(s, '"', j);
    }
  }

  /** A run of digits ending where a non-digit (or the end) follows. */
  lemma {:induction false} DigitRunExact(t: string, id: string)
    requires AllDigits(id) && |id| <= |t| && t[..|id|] == id
    requires |id| < |t| ==> !IsDigit(t[|id|])
    ensures DigitRun(t) == |id|
    decreases |id|
  {
    if id != [] {
      assert t[1..][..|id| - 1] == id[1..];
      DigitRunExact(t[1..], id[1..]);
    }
  }

  lemma RecordAtComplete(s: string, d: nat, g: string)
    requires g != [] && '\'' !in g
    requires OccursAt(s, "]='" + g + "';", d)
    ensures RecordAt(s, d) == Some(Capture(d, d + |g| + 5, g))
  {
    OccursConcat(s, "]='" + g, "';", d);
    OccursConcat(s, "]='", g, d);
    var q := d + 3 + |g|;
    assert s[q..q + 2] == "';";
    assert s[q] == '\'' && s[q + 1] == ';';
    forall j | d + 3 <= j < q ensures !OccursAt(s, "'", j) {
      assert s[j] == s[d + 3..q][j - d - 3];
      OccursAtChar(s, '\'', j);
    }
    OccursAtChar(s, '\'', q);
  }

  /** The pieces of a `client_list[id]='g';` occurrence. */
  lemma ClientsListParts(s: string, i: nat, id: string, g: string)
    requires OccursAt(s, "client_list[" + id + "]='" + g + "';", i)
    ensures OccursAt(s, "client_list[", i)
    ensures i + 12 + |id| < |s| && s[i + 12..i + 12 + |id|] == id && s[i + 12 + |id|] == ']'
    ensures OccursAt(s, "]='" + g + "';", i + 12 + |id|)
  {
    var d := i + 12 + |id|;
    OccursConcat(s, "client_list[" + id + "]='" + g, "';", i);
    OccursConcat(s, "client_list[" + id + "]='", g, i);
    OccursConcat(s, "client_list[" + id, "]='", i);
    OccursConcat(s, "client_list[", id, i);
    OccursConcat(s, "]='", g, d);
    OccursConcat(s, "]='" + g, "';", d);
    assert s[d..d + 3] == "]='";
  }

  /** The digit run after `client_list[` ends at the `]` after `id`. */
  lemma ClientsListDigits(s: string, i: nat, id: string)
    requires id != [] && AllDigits(id)
    requires i + 12 + |id| < |s| && s[i + 12..i + 12 + |id|] == id && s[i + 12 + |id|] == ']'
    ensures DigitRun(s[i + 12..]) == |id|
  {
    var t := s[i + 12..];
    assert t[..|id|] == id && t[|id|] == ']';
    DigitRunExact(t, id);
  }

  /** `client_list[`, a digit run and a record make a match. */
  lemma ClientsListAtOf(s: string, i: nat, n: nat, r: Capture)
    requires OccursAt(s, "client_list[", i)
    requires n > 0 && DigitRun(s[i + 12..]) == n
    requires RecordAt(s, i + 12 + n) == Some(r)
    ensures ClientsListAt(s, i) == Some(Capture(i, r.end, r.group))
  {
  }

  /** `client_list[`, the digits `id` ended by `]`, and a record `g` make
      a match capturing `g`. */
  lemma ClientsListAtPieces(s: string, i: nat, id: string, g: string)
    requires id != [] && AllDigits(id)
    requires OccursAt(s, "client_list[", i)
    requires i + 12 + |id| < |s| && s[i + 12..i + 12 + |id|] == id && s[i + 12 + |id|] == ']'
    requires RecordAt(s, i + 12 + |id|) == Some(Capture(i + 12 + |id|, i + |id| + |g| + 17, g))
    ensures ClientsListAt(s, i) == Some(Capture(i, i + |id| + |g| + 17, g))
  {
    ClientsListDigits(s, i, id);
    ClientsListAtOf(s, i, |id|, Capture(i + 12 + |id|, i + |id| + |g| + 17, g));
  }

  /** Conversely, `client_list[id]='g';` with a non-empty digit string `id`
      and a non-empty record `g` free of apostrophes is a match capturing
      exactly `g`. */
  lemma ClientsListAtComplete(s: string, i: nat, id: string, g: string)
    requires id != [] && AllDigits(id)
    requires g != [] && '\'' !in g
    requires OccursAt(s, "client_list[" + id + "]='" + g + "';", i)
    ensures ClientsListAt(s, i) == Some(Capture(i, i + |id| + |g| + 17, g))
  {
    ClientsListParts(s, i, id, g);
    RecordAtComplete(s, i + 12 + |id|, g);
    ClientsListAtPieces(s, i, id, g);
  }
}
