/** The one regular-expression shape the metadata rules search for,
    `KEY\s*=\s*([0-9.]+)` (main.py:82, 86, 217, 220), with Python's `re.search`
    semantics: the leftmost position where the pattern matches, and the text of
    the capture group there. */
module Regex {
  import opened Wrappers
  import opened Text

  /** `\s` in a Python str pattern: exactly the characters for which
      `str.isspace()` holds. */
  predicate IsSpace(c: char)
  {
    || c == ' ' || '\t' <= c <= '\r' || '\U{1C}' <= c <= '\U{1F}'
    || c == '\U{85}' || c == '\U{A0}' || c == '\U{1680}'
    || '\U{2000}' <= c <= '\U{200A}' || c == '\U{2028}' || c == '\U{2029}'
    || c == '\U{202F}' || c == '\U{205F}' || c == '\U{3000}'
  }

  /** The character class `[0-9.]`. */
  predicate IsNumberChar(c: char)
  {
    '0' <= c <= '9' || c == '.'
  }

  /** Every character of `s[lo..hi]` is whitespace. */
  predicate AllSpace(s: string, lo: int, hi: int)
    requires 0 <= lo <= hi <= |s|
  {
    forall k :: lo <= k < hi ==> IsSpace(s[k])
  }

  /** Every character of `t` is in `[0-9.]`. */
  predicate IsNumberText(t: string)
  {
    forall k :: 0 <= k < |t| ==> IsNumberChar(t[k])
  }

  /** Where a greedy `\s*` starting at `i` stops. */
  function SkipSpaces(s: string, i: nat): (r: nat)
    requires i <= |s|
    ensures i <= r <= |s| && AllSpace(s, i, r)
    ensures r == |s| || !IsSpace(s[r])
    decreases |s| - i
  {
    if i == |s| || !IsSpace(s[i]) then i else SkipSpaces(s, i + 1)
  }

  /** Where a greedy `[0-9.]*` starting at `i` stops. */
  function NumberEnd(s: string, i: nat): (r: nat)
    requires i <= |s|
    ensures i <= r <= |s| && IsNumberText(s[i..r])
    ensures r == |s| || !IsNumberChar(s[r])
    decreases |s| - i
  {
    if i == |s| || !IsNumberChar(s[i]) then i
    else
      var r := NumberEnd(s, i + 1);
      assert s[i..r] == [s[i]] + s[i + 1..r];
      r
  }

  /** The attempt of `key\s*=\s*([0-9.]+)` at index `i`: the captured group
      when the pattern matches there. */
  function GroupAt(s: string, key: string, i: nat): (r: Option<string>)
    ensures r.Some? ==> r.value != [] && IsNumberText(r.value)
  {
    if OccursAt(s, key, i) then GroupAfterKey(s, i + |key|) else None
  }

  /** The rest of the attempt once `key` has matched, up to index `j`. */
  function GroupAfterKey(s: string, j: nat): (r: Option<string>)
    requires j <= |s|
    ensures r.Some? ==> r.value != [] && IsNumberText(r.value)
  {
    var p := SkipSpaces(s, j);
    if p == |s| || s[p] != '=' then None
    else
      var q := SkipSpaces(s, p + 1);
      var e := NumberEnd(s, q);
      if e == q then None else Some(s[q..e])
  }

  /** What it means for the pattern to match at `i` with group `v`, stated on
      the layout of the text: `key`, whitespace up to the `=` at `p`,
      whitespace up to `q`, then `v`, a non-empty run of `[0-9.]` that the
      greedy `+` extends as far as it can. */
  ghost predicate Layout(s: string, key: string, i: nat, p: nat, q: nat, v: string)
  {
    && OccursAt(s, key, i)
    && i + |key| <= p < q && q + |v| <= |s|
    && AllSpace(s, i + |key|, p) && s[p] == '='
    && AllSpace(s, p + 1, q)
    && v != [] && s[q..q + |v|] == v && IsNumberText(v)
    && (q + |v| == |s| || !IsNumberChar(s[q + |v|]))
  }

  lemma {:induction false} SkipSpacesStopsAt(s: string, i: nat, r: nat)
    requires i <= r < |s| && AllSpace(s, i, r) && !IsSpace(s[r])
    ensures SkipSpaces(s, i) == r
    decreases r - i
  {
    if i < r {
      SkipSpacesStopsAt(s, i + 1, r);
    }
  }

  lemma {:induction false} NumberEndStopsAt(s: string, i: nat, r: nat)
    requires i <= r <= |s| && IsNumberText(s[i..r])
    requires r == |s| || !IsNumberChar(s[r])
    ensures NumberEnd(s, i) == r
    decreases r - i
  {
    if i < r {
      assert IsNumberChar(s[i..r][0]);
      assert s[i + 1..r] == s[i..r][1..];
      NumberEndStopsAt(s, i + 1, r);
    }
  }

  lemma GroupAtHasLayout(s: string, key: string, i: nat, v: string)
    requires GroupAt(s, key, i) == Some(v)
    ensures Layout(s, key, i, SkipSpaces(s, i + |key|), SkipSpaces(s, SkipSpaces(s, i + |key|) + 1), v)
  {
  }

  lemma LayoutHasGroup(s: string, key: string, i: nat, p: nat, q: nat, v: string)
    requires Layout(s, key, i, p, q, v)
    ensures GroupAt(s, key, i) == Some(v)
  {
    SkipSpacesStopsAt(s, i + |key|, p);
    assert IsNumberChar(s[q..q + |v|][0]);
    SkipSpacesStopsAt(s, p + 1, q);
    NumberEndStopsAt(s, q, q + |v|);
  }

  /** The pattern matches at `i` with group `v` exactly when the text has the
      layout above: the whitespace runs and the capture are forced, so the
      match is unique. */
  lemma GroupAtIsLayout(s: string, key: string, i: nat, v: string)
    ensures GroupAt(s, key, i) == Some(v) <==> exists p: nat, q: nat :: Layout(s, key, i, p, q, v)
  {
    if GroupAt(s, key, i) == Some(v) {
      GroupAtHasLayout(s, key, i, v);
    }
    if exists p: nat, q: nat :: Layout(s, key, i, p, q, v) {
      var p: nat, q: nat :| Layout(s, key, i, p, q, v);
      LayoutHasGroup(s, key, i, p, q, v);
    }
  }

  /** A successful `re.search`: where the match starts and what group 1 holds. */
  datatype Match = Match(start: nat, group: string)

  /** The pattern matches at no start position in `lo..hi`. */
  predicate NoMatchBetween(s: string, key: string, lo: nat, hi: nat)
  {
    forall j: nat :: lo <= j < hi ==> GroupAt(s, key, j).None?
  }

  /** `re.search` restricted to start positions `i` and later. */
  function SearchFrom(s: string, key: string, i: nat): (r: Option<Match>)
    requires i <= |s|
    ensures r.Some? ==> i <= r.value.start <= |s| && GroupAt(s, key, r.value.start) == Some(r.value.group)
    ensures r.Some? ==> NoMatchBetween(s, key, i, r.value.start)
    ensures r.None? ==> NoMatchBetween(s, key, i, |s| + 1)
    decreases |s| - i
  {
    var g := GroupAt(s, key, i);
    if g.Some? then Some(Match(i, g.value))
    else if i == |s| then None
    else SearchFrom(s, key, i + 1)
  }

  /** `re.search(key + r'\s*=\s*([0-9.]+)', s)`: the leftmost match, or
      `None` when the pattern matches nowhere. */
  function Search(s: string, key: string): (r: Option<Match>)
    ensures r.Some? ==> r.value.start <= |s| && GroupAt(s, key, r.value.start) == Some(r.value.group)
    ensures r.Some? ==> NoMatchBetween(s, key, 0, r.value.start)
    ensures r.None? ==> NoMatchBetween(s, key, 0, |s| + 1)
  {
    SearchFrom(s, key, 0)
  }
}
