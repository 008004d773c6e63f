/** The group-label test of `setGroup`: `re.match(r"\s*-- (.*) --", text)` and
    its first capture group, with Python's matching rules. `re.match` anchors the
    pattern at the start of the text only; `\s*` and `.*` are greedy; `.` matches
    every character except a newline. */
module GroupLabel {
  import opened Options

  /** `\s` in a `str` pattern: the characters for which `str.isspace()` holds. */
  predicate IsSpace(c: char) {
    || ('\t' <= c <= '\r')
    || ('\U{1C}' <= c <= '\U{1F}')
    || c == ' ' || c == '\U{85}' || c == '\U{A0}' || c == '\U{1680}'
    || ('\U{2000}' <= c <= '\U{200A}')
    || c == '\U{2028}' || c == '\U{2029}' || c == '\U{202F}' || c == '\U{205F}'
    || c == '\U{3000}'
  }

  /** The length of the longest all-whitespace prefix: what the greedy `\s*` takes. */
  function LeadingSpace(s: string): (n: nat)
    ensures n <= |s|
    ensures forall j :: 0 <= j < n ==> IsSpace(s[j])
    ensures n < |s| ==> !IsSpace(s[n])
  {
    if s == [] || !IsSpace(s[0]) then 0 else 1 + LeadingSpace(s[1..])
  }

  /** A whitespace run followed by a non-space character (or the end) is the
      one `\s*` takes. */
  lemma {:induction false} LeadingSpaceIs(s: string, i: nat)
    requires i <= |s|
    requires forall j :: 0 <= j < i ==> IsSpace(s[j])
    requires i < |s| ==> !IsSpace(s[i])
    ensures LeadingSpace(s) == i
  {
    if i > 0 {
      LeadingSpaceIs(s[1..], i - 1);
    }
  }

  /** The index of the first newline, or `|s|`: how far `.*` can reach. */
  function LineLength(s: string): (n: nat)
    ensures n <= |s|
    ensures forall j :: 0 <= j < n ==> s[j] != '\n'
    ensures n < |s| ==> s[n] == '\n'
  {
    if s == [] || s[0] == '\n' then 0 else 1 + LineLength(s[1..])
  }

  /** The closing ` --` of the pattern starts at index `k` of `s`. */
  predicate ClosesAt(s: string, k: nat) {
    k + 3 <= |s| && s[k] == ' ' && s[k + 1] == '-' && s[k + 2] == '-'
  }

  /** The opening `-- ` of the pattern starts at index `k` of `s`. */
  predicate OpensAt(s: string, k: nat) {
    k + 3 <= |s| && s[k] == '-' && s[k + 1] == '-' && s[k + 2] == ' '
  }

  /** The largest index at most `k` where a closing ` --` starts: the point the
      greedy `(.*)` backtracks to. */
  function LastClose(s: string, k: nat): (r: Option<nat>)
    ensures r.Some? ==> r.value <= k && ClosesAt(s, r.value)
    ensures r.Some? ==> forall j :: r.value < j <= k ==> !ClosesAt(s, j)
    ensures r.None? ==> forall j :: 0 <= j <= k ==> !ClosesAt(s, j)
    decreases k
  {
    if ClosesAt(s, k) then Some(k)
    else if k == 0 then None
    else LastClose(s, k - 1)
  }

  /** The pattern matches a prefix of `s` with `\s*` covering `s[..i]` and the
      capture group covering the `n` characters after the opening `-- `. */
  ghost predicate MatchAt(s: string, i: nat, n: nat) {
    && i + n + 6 <= |s|
    && (forall j :: 0 <= j < i ==> IsSpace(s[j]))
    && OpensAt(s, i)
    && (forall j :: i + 3 <= j < i + 3 + n ==> s[j] != '\n')
    && ClosesAt(s, i + 3 + n)
  }

  /** The capture group of the match, or `None` when `re.match` returns `None`. */
  function Match(s: string): (r: Option<string>)
    ensures r.Some? ==> MatchAt(s, LeadingSpace(s), |r.value|)
    ensures r.Some? ==> r.value == s[LeadingSpace(s) + 3..LeadingSpace(s) + 3 + |r.value|]
  {
    var i := LeadingSpace(s);
    if OpensAt(s, i) then
      var rest := s[i + 3..];
      var line := rest[..LineLength(rest)];
      match LastClose(line, |line|)
      case Some(k) =>
        assert line[k] == s[i + 3 + k] && line[k + 1] == s[i + 4 + k] && line[k + 2] == s[i + 5 + k];
        Some(line[..k])
      case None => None
    else
      None
  }

  /** `Match` gives the match Python's backtracking finds first: whenever the
      pattern can match at all, `Match` succeeds, its whitespace run is the only
      one possible, and its capture is the longest possible. */
  lemma MatchIsLeftmostGreedy(s: string, i: nat, n: nat)
    requires MatchAt(s, i, n)
    ensures i == LeadingSpace(s)
    ensures Match(s).Some? && n <= |Match(s).value|
  {
    LeadingSpaceIs(s, i);
    var rest := s[i + 3..];
    var len := LineLength(rest);
    assert len >= n + 3;
    var line := rest[..len];
    assert line[n] == s[i + 3 + n] && line[n + 1] == s[i + 4 + n] && line[n + 2] == s[i + 5 + n];
    assert ClosesAt(line, n);
  }

  /** A label written as whitespace, `-- `, a one-line name and ` --` gives
      back exactly that name, whatever the name contains otherwise. */
  lemma LabelRoundTrip(ws: string, name: string)
    requires forall j :: 0 <= j < |ws| ==> IsSpace(ws[j])
    requires forall j :: 0 <= j < |name| ==> name[j] != '\n'
    ensures Match(ws + "-- " + name + " --") == Some(name)
  {
    var s := ws + "-- " + name + " --";
    var i := |ws|;
    assert s[..i] == ws && s[i..i + 3] == "-- " && s[i + 3..i + 3 + |name|] == name;
    assert s[i + 3 + |name|..] == " --";
    LeadingSpaceIs(s, i);
    assert MatchAt(s, i, |name|);
    MatchIsLeftmostGreedy(s, i, |name|);
  }

  /** Leading whitespace is skipped and the label is cut at the closing marker. */
  lemma MatchTrimsDecoration()
    ensures Match(" \t-- Entrees --") == Some("Entrees")
  {
    LabelRoundTrip(" \t", "Entrees");
    assert " \t" + "-- " + "Entrees" + " --" == " \t-- Entrees --";
  }

  /** The capture runs to the LAST closing marker, and text after it is
      ignored. */
  lemma MatchIsGreedy(s: string)
    requires s == "-- a -- b -- x"
    ensures Match(s) == Some("a -- b")
  {
    LeadingSpaceIs(s, 0);
    assert MatchAt(s, 0, 6);
    MatchIsLeftmostGreedy(s, 0, 6);
    var v := Match(s).value;
    assert MatchAt(s, 0, |v|);
    assert |v| == 6;
    assert v == s[3..9];
    assert s[3..9] == "a -- b";
  }

  /** A newline before the closing marker makes the match fail. */
  lemma MatchStopsAtNewline()
    ensures Match("-- a\nb --") == None
  {
  }
}
