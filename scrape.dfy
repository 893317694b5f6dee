/** The reply scrape of `parse_and_save`:
    `re.findall(r'Filename:\s*(.*\.pdf)', response_text)` followed by
    stripping every captured name, written as a scanner for this one pattern. */
module Scrape {
  import opened Text
  import opened Wrappers

  const MARKER := "Filename:"
  const EXTENSION := ".pdf"

  /** One match: where the literal `Filename:` starts, and the span
      `[start, end)` of the captured group `(.*\.pdf)`. */
  datatype Capture = Capture(marker: nat, start: nat, end: nat)

  /** `.pdf` ends at offset `e` of `t`. */
  predicate ExtensionEndsAt(t: string, e: nat) {
    |EXTENSION| <= e <= |t| && t[e - |EXTENSION|..e] == EXTENSION
  }

  /** The pattern, read as a language: the text from `p` matches it when the
      group is `t[s..e]`: the marker at `p`, then only whitespace up to `s`,
      then no newline up to `e`, where `.pdf` ends. */
  predicate PatternMatches(t: string, p: nat, s: nat, e: nat) {
    && p + |MARKER| <= s && s + |EXTENSION| <= e && e <= |t|
    && t[p..p + |MARKER|] == MARKER
    && (forall i :: p + |MARKER| <= i < s ==> IsSpace(t[i]))
    && (forall i :: s <= i < e ==> t[i] != '\n')
    && ExtensionEndsAt(t, e)
  }

  /** Greedy `\s*`: the end of the whitespace run that starts at `q`. */
  function SkipSpaces(t: string, q: nat): (k: nat)
    requires q <= |t|
    ensures q <= k <= |t|
    ensures forall i :: q <= i < k ==> IsSpace(t[i])
    ensures k < |t| ==> !IsSpace(t[k])
    decreases |t| - q
  {
    if q < |t| && IsSpace(t[q]) then SkipSpaces(t, q + 1) else q
  }

  /** How far `.` can reach from `s`: the first newline at or after `s`, or the end. */
  function LineEnd(t: string, s: nat): (le: nat)
    requires s <= |t|
    ensures s <= le <= |t|
    ensures forall i :: s <= i < le ==> t[i] != '\n'
    ensures le < |t| ==> t[le] == '\n'
    decreases |t| - s
  {
    if s < |t| && t[s] != '\n' then LineEnd(t, s + 1) else s
  }

  /** Greedy `.*\.pdf` between `s` and `limit`: the last place, not past
      `limit`, where a `.pdf` that starts at or after `s` ends. */
  function LastExtensionEnd(t: string, s: nat, limit: nat): (r: Option<nat>)
    requires s <= limit <= |t|
    ensures r.Some? ==> s + |EXTENSION| <= r.value <= limit && ExtensionEndsAt(t, r.value)
    ensures r.Some? ==> forall e :: r.value < e <= limit ==> !ExtensionEndsAt(t, e)
    ensures r.None? ==> forall e :: s + |EXTENSION| <= e <= limit ==> !ExtensionEndsAt(t, e)
    decreases limit
  {
    if limit < s + |EXTENSION| then None
    else if ExtensionEndsAt(t, limit) then Some(limit)
    else LastExtensionEnd(t, s, limit - 1)
  }

  /** The attempt of the regular-expression engine at offset `p`: the marker,
      the longest whitespace run after it, then the last `.pdf` on that line. */
  function MatchAt(t: string, p: nat): (r: Option<Capture>)
    ensures r.Some? ==> r.value.marker == p && p + |MARKER| <= r.value.start
    ensures r.Some? ==> r.value.start + |EXTENSION| <= r.value.end <= |t|
  {
    if p + |MARKER| > |t| || t[p..p + |MARKER|] != MARKER then
      None
    else
      var s := SkipSpaces(t, p + |MARKER|);
      match LastExtensionEnd(t, s, LineEnd(t, s))
      case None => None
      case Some(e) => Some(Capture(p, s, e))
  }

  /** The attempt at `p` succeeds exactly when the pattern can match there.
      It then picks the longest whitespace run first, then the longest group,
      which is the first split in the order Python's backtracking tries them.
      So the group runs to the last `.pdf` on its line. */
  lemma MatchAtCorrect(t: string, p: nat)
    ensures MatchAt(t, p).Some? ==> PatternMatches(t, p, MatchAt(t, p).value.start, MatchAt(t, p).value.end)
    ensures MatchAt(t, p).Some? ==> forall s: nat, e: nat :: PatternMatches(t, p, s, e) ==>
      s < MatchAt(t, p).value.start || (s == MatchAt(t, p).value.start && e <= MatchAt(t, p).value.end)
    ensures MatchAt(t, p).None? ==> forall s: nat, e: nat :: !PatternMatches(t, p, s, e)
  {
    if p + |MARKER| <= |t| && t[p..p + |MARKER|] == MARKER {
      var s := SkipSpaces(t, p + |MARKER|);
      var le := LineEnd(t, s);
      match LastExtensionEnd(t, s, le)
      case None =>
        NoOtherSplit(t, p, s, le);
      case Some(e) =>
        GreediestSplit(t, p, s, le, e);
    } else {
      forall s: nat, e: nat
        ensures !PatternMatches(t, p, s, e)
      {
      }
    }
  }

  /** Greed within a line: the group of a successful attempt runs to the last
      `.pdf` before the end of its line, however many come earlier. */
  lemma GroupRunsToLastExtension(t: string, p: nat)
    requires MatchAt(t, p).Some?
    ensures var c := MatchAt(t, p).value;
      && c.end <= LineEnd(t, c.start)
      && forall e :: c.end < e <= LineEnd(t, c.start) ==> !ExtensionEndsAt(t, e)
  {
  }

  /** Any split of a match can be moved to the end of the whitespace run: the
      group starts with `.` or another non-space, and `.` cannot cross a newline. */
  lemma ShiftToRunEnd(t: string, p: nat, s: nat, le: nat, s': nat, e': nat)
    requires p + |MARKER| <= s <= |t|
    requires forall i :: p + |MARKER| <= i < s ==> IsSpace(t[i])
    requires s < |t| ==> !IsSpace(t[s])
    requires le == LineEnd(t, s)
    requires PatternMatches(t, p, s', e')
    ensures s' <= s
    ensures s + |EXTENSION| <= e' <= le
  {
    var dot := e' - |EXTENSION|;
    assert t[dot] == '.' by {
      assert t[dot..e'][0] == '.';
    }
  }

  lemma NoOtherSplit(t: string, p: nat, s: nat, le: nat)
    requires p + |MARKER| <= |t| && t[p..p + |MARKER|] == MARKER
    requires s == SkipSpaces(t, p + |MARKER|) && le == LineEnd(t, s)
    requires LastExtensionEnd(t, s, le).None?
    ensures forall s': nat, e': nat :: !PatternMatches(t, p, s', e')
  {
    forall s': nat, e': nat | PatternMatches(t, p, s', e')
      ensures false
    {
      ShiftToRunEnd(t, p, s, le, s', e');
    }
  }

  lemma GreediestSplit(t: string, p: nat, s: nat, le: nat, e: nat)
    requires p + |MARKER| <= |t| && t[p..p + |MARKER|] == MARKER
    requires s == SkipSpaces(t, p + |MARKER|) && le == LineEnd(t, s)
    requires LastExtensionEnd(t, s, le) == Some(e)
    ensures PatternMatches(t, p, s, e)
    ensures forall s': nat, e': nat :: PatternMatches(t, p, s', e') ==> s' < s || (s' == s && e' <= e)
  {
    forall s': nat, e': nat | PatternMatches(t, p, s', e')
      ensures s' < s || (s' == s && e' <= e)
    {
      ShiftToRunEnd(t, p, s, le, s', e');
    }
  }

  /** No match of the pattern begins anywhere in `[a, b)`. */
  predicate NoMatchIn(t: string, a: nat, b: nat) {
    forall q :: a <= q < b ==> MatchAt(t, q).None?
  }

  /** What `re.findall` promises, scanning from `from`: `r` lists, in text
      order, the match at the first offset where one begins, then recursively
      the matches from where that one ends; no match begins in a skipped gap,
      and none after the last match. */
  predicate Scanned(t: string, from: nat, r: seq<Capture>)
    decreases |r|
  {
    if r == [] then NoMatchIn(t, from, |t| + 1)
    else
      && from <= r[0].marker
      && MatchAt(t, r[0].marker) == Some(r[0])
      && NoMatchIn(t, from, r[0].marker)
      && Scanned(t, r[0].end, r[1..])
  }

  /** The scan loop of `re.findall` from offset `from`: try every offset left
      to right; after a match, resume where the match ended. */
  function FindAll(t: string, from: nat): (r: seq<Capture>)
    requires from <= |t| + 1
    ensures forall i :: 0 <= i < |r| ==> from <= r[i].marker && MatchAt(t, r[i].marker) == Some(r[i])
    decreases |t| + 1 - from
  {
    if from > |t| then []
    else
      match MatchAt(t, from)
      case None => FindAll(t, from + 1)
      case Some(c) => [c] + FindAll(t, c.end)
  }

  /** The scan loop delivers what `re.findall` promises. */
  lemma {:induction false} FindAllScanned(t: string, from: nat)
    requires from <= |t| + 1
    ensures Scanned(t, from, FindAll(t, from))
    decreases |t| + 1 - from
  {
    if from <= |t| {
      match MatchAt(t, from)
      case None =>
        FindAllScanned(t, from + 1);
        ScannedFromEarlier(t, from, FindAll(t, from + 1));
      case Some(c) =>
        FindAllScanned(t, c.end);
        ScannedFromMatch(t, from, c, FindAll(t, c.end));
    }
  }

  /** An offset where no match begins can be added in front of a scan. */
  lemma ScannedFromEarlier(t: string, from: nat, r: seq<Capture>)
    requires MatchAt(t, from).None? && Scanned(t, from + 1, r)
    ensures Scanned(t, from, r)
  {
    var b := if r == [] then |t| + 1 else r[0].marker;
    assert NoMatchIn(t, from + 1, b);
    assert NoMatchIn(t, from, b);
  }

  /** A match at the scan position, followed by a scan from its end. */
  lemma ScannedFromMatch(t: string, from: nat, c: Capture, rest: seq<Capture>)
    requires MatchAt(t, from) == Some(c) && Scanned(t, c.end, rest)
    ensures Scanned(t, from, [c] + rest)
  {
    assert ([c] + rest)[1..] == rest;
  }

  /** Offsets at which no match begins are skipped without effect. */
  lemma {:induction false} FindAllSkips(t: string, from: nat, q: nat)
    requires from <= q <= |t| + 1 && NoMatchIn(t, from, q)
    ensures FindAll(t, from) == FindAll(t, q)
    decreases q - from
  {
    if from < q {
      assert MatchAt(t, from).None?;
      FindAllSkips(t, from + 1, q);
    }
  }

  /** Conversely, only the scan loop's result keeps that promise: the
      description determines the list of matches. */
  lemma {:induction false} ScannedIsFindAll(t: string, from: nat, r: seq<Capture>)
    requires from <= |t| + 1 && Scanned(t, from, r)
    ensures r == FindAll(t, from)
    decreases |r|
  {
    if r == [] {
      FindAllSkips(t, from, |t| + 1);
    } else {
      var c := r[0];
      FindAllSkips(t, from, c.marker);
      ScannedIsFindAll(t, c.end, r[1..]);
      assert r == [c] + r[1..];
    }
  }

  /** The matches come in text order and do not overlap. */
  lemma {:induction false} ScannedInOrder(t: string, from: nat, r: seq<Capture>)
    requires Scanned(t, from, r)
    ensures forall i :: 0 <= i < |r| ==> from <= r[i].marker
    ensures forall i, j :: 0 <= i < j < |r| ==> r[i].end <= r[j].marker
    decreases |r|
  {
    if r != [] {
      ScannedInOrder(t, r[0].end, r[1..]);
      assert forall i :: 1 <= i < |r| ==> r[i] == r[1..][i - 1];
    }
  }

  /** The text of a capture's group. */
  function Group(t: string, c: Capture): string
    requires c.start <= c.end <= |t|
  {
    t[c.start..c.end]
  }

  /** `re.findall(r'Filename:\s*(.*\.pdf)', t)`: the groups of all matches. */
  function FindAllGroups(t: string): (groups: seq<string>)
    ensures |groups| == |FindAll(t, 0)|
    ensures forall i :: 0 <= i < |groups| ==>
      groups[i] == t[FindAll(t, 0)[i].start..FindAll(t, 0)[i].end]
  {
    var caps := FindAll(t, 0);
    seq(|caps|, i requires 0 <= i < |caps| => Group(t, caps[i]))
  }

  /** The group of any successful attempt ends with `.pdf`, holds no newline
      and neither starts nor ends with whitespace. */
  lemma CaptureShape(t: string, c: Capture)
    requires MatchAt(t, c.marker) == Some(c)
    ensures var g := t[c.start..c.end];
      && EndsWith(g, EXTENSION)
      && '\n' !in g
      && !IsSpace(g[0]) && !IsSpace(g[|g| - 1])
  {
    MatchAtCorrect(t, c.marker);
    var g := t[c.start..c.end];
    assert PatternMatches(t, c.marker, c.start, c.end);
    assert g[|g| - |EXTENSION|..] == t[c.end - |EXTENSION|..c.end];
    assert forall k :: 0 <= k < |g| ==> g[k] == t[c.start + k];
    assert g[|g| - 1] == 'f';
    assert c.start == SkipSpaces(t, c.marker + |MARKER|);
  }

  /** `[filename.strip() for filename in shortlisted]` applied to the groups. */
  function ScrapeNames(response: string): (names: seq<string>)
    ensures |names| == |FindAll(response, 0)|
  {
    var groups := FindAllGroups(response);
    seq(|groups|, i requires 0 <= i < |groups| => Strip(groups[i]))
  }

  /** The strip changes no group: every scraped name is the group of a match
      as it stands in the reply, ends with `.pdf`, holds no newline and carries
      no surrounding whitespace. */
  lemma ScrapedName(response: string, i: nat)
    requires i < |ScrapeNames(response)|
    ensures var c := FindAll(response, 0)[i];
      && ScrapeNames(response)[i] == response[c.start..c.end]
      && MatchAt(response, c.marker) == Some(c)
    ensures var name := ScrapeNames(response)[i];
      && EndsWith(name, EXTENSION)
      && '\n' !in name
      && !IsSpace(name[0]) && !IsSpace(name[|name| - 1])
  {
    var c := FindAll(response, 0)[i];
    CaptureShape(response, c);
    StripNoop(response[c.start..c.end]);
  }

  /** An empty reply, which is what a failed model call leaves, yields no names. */
  lemma ScrapeNamesEmpty()
    ensures ScrapeNames("") == []
  {
  }
}
