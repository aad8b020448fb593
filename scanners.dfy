/**
 * Hand-written scanners for the three regular expressions of wikicheck.py,
 * applied to one line (without its terminator):
 *
 *   REGEX_SECTION   ^#+(.+?)#*$
 *   REGEX_BOOKMARK  \[([^\[\]]+?)\]\(#([^\(\)]+?)\)
 *   REGEX_WIKILINK  \[\[([^\[\|\]]+?)\|([^\[\|\]]+?)\]\]
 *
 * Each regular expression is first written as a predicate saying what a
 * match at a given position looks like; the scanners are then proved to find
 * exactly those matches, in the order `findall` reports them.
 */
module Scanners {
  import opened Wrappers

  /** The first index at or after `from` holding one of `stops`, or `|line|`. */
  function FirstOf(line: string, from: nat, stops: set<char>): (k: nat)
    requires from <= |line|
    ensures from <= k <= |line|
    ensures forall i :: from <= i < k ==> line[i] !in stops
    ensures k < |line| ==> line[k] in stops
    decreases |line| - from
  {
    if from == |line| || line[from] in stops then from else FirstOf(line, from + 1, stops)
  }

  predicate NoneOf(s: string, excluded: set<char>) {
    forall c :: c in s ==> c !in excluded
  }

  // ---------------------------------------------------------------------
  // Bookmarks and wikilinks: two patterns with two groups each.

  datatype Pattern = Bookmark | Wikilink

  /** One match: its two groups, and the positions where it starts and ends. */
  datatype Match = Match(text: string, target: string, start: nat, end: nat)

  /** Both patterns put five delimiter characters around their two groups. */
  function Width(text: string, target: string): nat {
    |text| + |target| + 5
  }

  /** `[text](#target)` starts at `p`, the text free of brackets, the target free of parentheses. */
  predicate IsBookmarkAt(line: string, p: nat, text: string, target: string) {
    && |text| >= 1 && NoneOf(text, {'[', ']'})
    && |target| >= 1 && NoneOf(target, {'(', ')'})
    && p + Width(text, target) <= |line|
    && line[p..p + Width(text, target)] == "[" + text + "](#" + target + ")"
  }

  /** `[[text|target]]` starts at `p`, neither group holding '[', '|' or ']'. */
  predicate IsWikilinkAt(line: string, p: nat, text: string, target: string) {
    && |text| >= 1 && NoneOf(text, {'[', '|', ']'})
    && |target| >= 1 && NoneOf(target, {'[', '|', ']'})
    && p + Width(text, target) <= |line|
    && line[p..p + Width(text, target)] == "[[" + text + "|" + target + "]]"
  }

  predicate IsMatchAt(pattern: Pattern, line: string, p: nat, text: string, target: string) {
    match pattern
    case Bookmark => IsBookmarkAt(line, p, text, target)
    case Wikilink => IsWikilinkAt(line, p, text, target)
  }

  /** The bookmark that starts at `p`, if there is one. */
  function BookmarkAt(line: string, p: nat): (r: Option<Match>)
    requires p <= |line|
    ensures r.Some? ==> && r.value.start == p
                        && r.value.end == p + Width(r.value.text, r.value.target)
                        && IsBookmarkAt(line, p, r.value.text, r.value.target)
  {
    if p < |line| && line[p] == '[' then
      var i := FirstOf(line, p + 1, {'[', ']'});
      if i > p + 1 && i + 2 < |line| && line[i] == ']' && line[i + 1] == '(' && line[i + 2] == '#' then
        var j := FirstOf(line, i + 3, {'(', ')'});
        if j > i + 3 && j < |line| && line[j] == ')' then
          BookmarkShape(line, p, i, j);
          Some(Match(line[p + 1..i], line[i + 3..j], p, j + 1))
        else None
      else None
    else None
  }

  lemma BookmarkShape(line: string, p: nat, i: nat, j: nat)
    requires p + 1 < i && i + 3 < j < |line|
    requires line[p] == '[' && line[i] == ']' && line[i + 1] == '(' && line[i + 2] == '#' && line[j] == ')'
    ensures line[p..j + 1] == "[" + line[p + 1..i] + "](#" + line[i + 3..j] + ")"
  {
    assert line[p..p + 1] == "[";
    assert line[i..i + 3] == "](#";
    assert line[j..j + 1] == ")";
    Adjacent(line, p, p + 1, i);
    Adjacent(line, p, i, i + 3);
    Adjacent(line, p, i + 3, j);
    Adjacent(line, p, j, j + 1);
  }

  /** The wikilink that starts at `p`, if there is one. */
  function WikilinkAt(line: string, p: nat): (r: Option<Match>)
    requires p <= |line|
    ensures r.Some? ==> && r.value.start == p
                        && r.value.end == p + Width(r.value.text, r.value.target)
                        && IsWikilinkAt(line, p, r.value.text, r.value.target)
  {
    if p + 1 < |line| && line[p] == '[' && line[p + 1] == '[' then
      var i := FirstOf(line, p + 2, {'[', '|', ']'});
      if i > p + 2 && i < |line| && line[i] == '|' then
        var j := FirstOf(line, i + 1, {'[', '|', ']'});
        if j > i + 1 && j + 1 < |line| && line[j] == ']' && line[j + 1] == ']' then
          WikilinkShape(line, p, i, j);
          Some(Match(line[p + 2..i], line[i + 1..j], p, j + 2))
        else None
      else None
    else None
  }

  lemma WikilinkShape(line: string, p: nat, i: nat, j: nat)
    requires p + 2 < i && i + 1 < j && j + 1 < |line|
    requires line[p] == '[' && line[p + 1] == '[' && line[i] == '|' && line[j] == ']' && line[j + 1] == ']'
    ensures line[p..j + 2] == "[[" + line[p + 2..i] + "|" + line[i + 1..j] + "]]"
  {
    assert line[p..p + 2] == "[[";
    assert line[i..i + 1] == "|";
    assert line[j..j + 2] == "]]";
    Adjacent(line, p, p + 2, i);
    Adjacent(line, p, i, i + 1);
    Adjacent(line, p, i + 1, j);
    Adjacent(line, p, j, j + 2);
  }

  /** Adjacent slices join into one. */
  lemma Adjacent(s: string, a: nat, b: nat, c: nat)
    requires a <= b <= c <= |s|
    ensures s[a..b] + s[b..c] == s[a..c]
  {
  }

  /** The match of `pattern` that starts at `p`, if there is one. */
  function MatchAt(pattern: Pattern, line: string, p: nat): (r: Option<Match>)
    requires p <= |line|
    ensures r.Some? ==> && r.value.start == p
                        && r.value.end == p + Width(r.value.text, r.value.target)
                        && IsMatchAt(pattern, line, p, r.value.text, r.value.target)
  {
    match pattern
    case Bookmark => BookmarkAt(line, p)
    case Wikilink => WikilinkAt(line, p)
  }

  lemma SubSlice(s: string, a: nat, b: nat, c: nat, d: nat)
    requires a <= b <= |s| && c <= d <= b - a
    ensures s[a..b][c..d] == s[a + c..a + d]
  {
    assert forall i :: 0 <= i < d - c ==> s[a..b][c..d][i] == s[a + c..a + d][i];
  }

  /** A stretch free of `stops` followed by one of them: `FirstOf` lands right after it. */
  lemma FirstOfAfter(line: string, from: nat, piece: string, stops: set<char>)
    requires from + |piece| < |line|
    requires line[from..from + |piece|] == piece
    requires NoneOf(piece, stops) && line[from + |piece|] in stops
    ensures FirstOf(line, from, stops) == from + |piece|
  {
    forall k | from <= k < from + |piece| ensures line[k] !in stops {
      assert line[k] == piece[k - from];
      assert piece[k - from] in piece;
    }
  }

  /** Whatever match starts at `p`, the scanner finds it, and finds nothing else. */
  lemma MatchAtComplete(pattern: Pattern, line: string, p: nat, text: string, target: string)
    requires p <= |line|
    requires IsMatchAt(pattern, line, p, text, target)
    ensures MatchAt(pattern, line, p) == Some(Match(text, target, p, p + Width(text, target)))
  {
    match pattern
    case Bookmark => BookmarkAtComplete(line, p, text, target);
    case Wikilink => WikilinkAtComplete(line, p, text, target);
  }

  lemma BookmarkAtFound(line: string, p: nat, i: nat, j: nat)
    requires p + 1 < i && i + 3 < j < |line|
    requires line[p] == '[' && line[i] == ']' && line[i + 1] == '(' && line[i + 2] == '#' && line[j] == ')'
    requires FirstOf(line, p + 1, {'[', ']'}) == i && FirstOf(line, i + 3, {'(', ')'}) == j
    ensures BookmarkAt(line, p) == Some(Match(line[p + 1..i], line[i + 3..j], p, j + 1))
  {
  }

  lemma WikilinkAtFound(line: string, p: nat, i: nat, j: nat)
    requires p + 2 < i && i + 1 < j && j + 1 < |line|
    requires line[p] == '[' && line[p + 1] == '[' && line[i] == '|' && line[j] == ']' && line[j + 1] == ']'
    requires FirstOf(line, p + 2, {'[', '|', ']'}) == i && FirstOf(line, i + 1, {'[', '|', ']'}) == j
    ensures WikilinkAt(line, p) == Some(Match(line[p + 2..i], line[i + 1..j], p, j + 2))
  {
  }

  lemma BookmarkParts(line: string, p: nat, text: string, target: string)
    requires IsBookmarkAt(line, p, text, target)
    ensures var i, j := p + 1 + |text|, p + 4 + |text| + |target|;
            && j < |line|
            && line[p] == '[' && line[i] == ']' && line[i + 1] == '(' && line[i + 2] == '#' && line[j] == ')'
            && line[p + 1..i] == text && line[i + 3..j] == target
  {
    var w := Width(text, target);
    var shape := "[" + text + "](#" + target + ")";
    var i := p + 1 + |text|;
    var j := i + 3 + |target|;
    assert line[p..p + w] == shape;
    assert line[p] == shape[0];
    assert line[i] == shape[i - p];
    assert line[i + 1] == shape[i + 1 - p];
    assert line[i + 2] == shape[i + 2 - p];
    assert line[j] == shape[j - p];
    assert shape[1..1 + |text|] == text;
    assert shape[4 + |text|..4 + |text| + |target|] == target;
    SubSlice(line, p, p + w, 1, 1 + |text|);
    SubSlice(line, p, p + w, 4 + |text|, 4 + |text| + |target|);
  }

  lemma BookmarkAtComplete(line: string, p: nat, text: string, target: string)
    requires p <= |line|
    requires IsBookmarkAt(line, p, text, target)
    ensures BookmarkAt(line, p) == Some(Match(text, target, p, p + Width(text, target)))
  {
    var i := p + 1 + |text|;
    var j := i + 3 + |target|;
    BookmarkParts(line, p, text, target);
    FirstOfAfter(line, p + 1, text, {'[', ']'});
    FirstOfAfter(line, i + 3, target, {'(', ')'});
    BookmarkAtFound(line, p, i, j);
  }

  lemma WikilinkParts(line: string, p: nat, text: string, target: string)
    requires IsWikilinkAt(line, p, text, target)
    ensures var i, j := p + 2 + |text|, p + 3 + |text| + |target|;
            && j + 1 < |line|
            && line[p] == '[' && line[p + 1] == '[' && line[i] == '|' && line[j] == ']' && line[j + 1] == ']'
            && line[p + 2..i] == text && line[i + 1..j] == target
  {
    var w := Width(text, target);
    var shape := "[[" + text + "|" + target + "]]";
    var i := p + 2 + |text|;
    var j := i + 1 + |target|;
    assert line[p..p + w] == shape;
    assert line[p] == shape[0];
    assert line[p + 1] == shape[1];
    assert line[i] == shape[i - p];
    assert line[j] == shape[j - p];
    assert line[j + 1] == shape[j + 1 - p];
    assert shape[2..2 + |text|] == text;
    assert shape[3 + |text|..3 + |text| + |target|] == target;
    SubSlice(line, p, p + w, 2, 2 + |text|);
    SubSlice(line, p, p + w, 3 + |text|, 3 + |text| + |target|);
  }

  lemma WikilinkAtComplete(line: string, p: nat, text: string, target: string)
    requires p <= |line|
    requires IsWikilinkAt(line, p, text, target)
    ensures WikilinkAt(line, p) == Some(Match(text, target, p, p + Width(text, target)))
  {
    var i := p + 2 + |text|;
    var j := i + 1 + |target|;
    WikilinkParts(line, p, text, target);
    WikilinkStops(line, p, text, target);
    WikilinkAtFound(line, p, i, j);
  }

  lemma WikilinkStops(line: string, p: nat, text: string, target: string)
    requires IsWikilinkAt(line, p, text, target)
    ensures FirstOf(line, p + 2, {'[', '|', ']'}) == p + 2 + |text|
    ensures FirstOf(line, p + 3 + |text|, {'[', '|', ']'}) == p + 3 + |text| + |target|
  {
    WikilinkParts(line, p, text, target);
    FirstOfAfter(line, p + 2, text, {'[', '|', ']'});
    FirstOfAfter(line, p + 3 + |text|, target, {'[', '|', ']'});
  }

  /**
   * `pattern.findall(line)` from position `p`: try each position in turn,
   * and after a match go on from its end, so matches never overlap.
   */
  function FindAll(pattern: Pattern, line: string, p: nat): seq<Match>
    requires p <= |line|
    decreases |line| - p
  {
    if p == |line| then []
    else
      match MatchAt(pattern, line, p)
      case Some(m) => [m] + FindAll(pattern, line, m.end)
      case None => FindAll(pattern, line, p + 1)
  }

  /**
   * Every element of `ms` is a match of the pattern starting at or after
   * `p`, and no two of them overlap.
   */
  predicate MatchesFrom(pattern: Pattern, line: string, p: nat, ms: seq<Match>) {
    && (forall k :: 0 <= k < |ms| ==>
          && p <= ms[k].start
          && ms[k].end == ms[k].start + Width(ms[k].text, ms[k].target) <= |line|
          && IsMatchAt(pattern, line, ms[k].start, ms[k].text, ms[k].target))
    && (forall k :: 0 <= k < |ms| - 1 ==> ms[k].end <= ms[k + 1].start)
  }

  /** Everything `findall` reports from position `p` is such a match. */
  lemma {:induction false} FindAllSound(pattern: Pattern, line: string, p: nat)
    requires p <= |line|
    ensures MatchesFrom(pattern, line, p, FindAll(pattern, line, p))
    decreases |line| - p
  {
    if p < |line| {
      match MatchAt(pattern, line, p)
      case Some(m) =>
        FindAllSound(pattern, line, m.end);
        MatchesFromCons(pattern, line, p, m, FindAll(pattern, line, m.end));
      case None =>
        FindAllSound(pattern, line, p + 1);
        MatchesFromEarlier(pattern, line, p, FindAll(pattern, line, p + 1));
    }
  }

  lemma MatchesFromCons(pattern: Pattern, line: string, p: nat, m: Match, rest: seq<Match>)
    requires m.start == p && m.end == p + Width(m.text, m.target) <= |line|
    requires IsMatchAt(pattern, line, p, m.text, m.target)
    requires MatchesFrom(pattern, line, m.end, rest)
    ensures MatchesFrom(pattern, line, p, [m] + rest)
  {
    var ms := [m] + rest;
    forall k | 0 < k < |ms| ensures ms[k] == rest[k - 1] {
    }
  }

  lemma MatchesFromEarlier(pattern: Pattern, line: string, p: nat, ms: seq<Match>)
    requires MatchesFrom(pattern, line, p + 1, ms)
    ensures MatchesFrom(pattern, line, p, ms)
  {
  }

  /**
   * `findall` reports nothing exactly when no match starts at or after `p`;
   * and the first match it reports is the leftmost one.
   */
  lemma {:induction false} FindAllLeftmost(pattern: Pattern, line: string, p: nat, q: nat, text: string, target: string)
    requires p <= q <= |line|
    requires IsMatchAt(pattern, line, q, text, target)
    ensures FindAll(pattern, line, p) != []
    ensures FindAll(pattern, line, p)[0].start <= q
    decreases |line| - p
  {
    if p == q {
      MatchAtComplete(pattern, line, p, text, target);
    } else if MatchAt(pattern, line, p).None? {
      FindAllLeftmost(pattern, line, p + 1, q, text, target);
    }
  }

  /** Some match of `ms` starts at or before `q` and ends after it. */
  predicate Covers(ms: seq<Match>, q: nat) {
    exists k :: 0 <= k < |ms| && ms[k].start <= q < ms[k].end
  }

  /**
   * `findall` misses no match: every match of the pattern at or after `p`
   * either is reported or starts inside a reported match, which covers it.
   */
  lemma FindAllComplete(pattern: Pattern, line: string, p: nat, q: nat, text: string, target: string)
    requires p <= q <= |line|
    requires IsMatchAt(pattern, line, q, text, target)
    ensures exists k :: 0 <= k < |FindAll(pattern, line, p)| &&
              FindAll(pattern, line, p)[k].start <= q < FindAll(pattern, line, p)[k].end
  {
    MatchAtComplete(pattern, line, q, text, target);
    FindAllCovers(pattern, line, p, q);
  }

  /** The induction behind `FindAllComplete`, stated over the scanner's own verdict at `q`. */
  lemma {:induction false} FindAllCovers(pattern: Pattern, line: string, p: nat, q: nat)
    requires p <= q < |line|
    requires MatchAt(pattern, line, q).Some?
    ensures Covers(FindAll(pattern, line, p), q)
    decreases |line| - p
  {
    var all := FindAll(pattern, line, p);
    var here := MatchAt(pattern, line, p);
    if here.None? {
      FindAllCovers(pattern, line, p + 1, q);
      assert all == FindAll(pattern, line, p + 1);
    } else {
      var m := here.value;
      assert all == [m] + FindAll(pattern, line, m.end);
      if q < m.end {
        assert all[0].start <= q < all[0].end;
      } else {
        FindAllCovers(pattern, line, m.end, q);
        CoversCons(m, FindAll(pattern, line, m.end), q);
      }
    }
  }

  lemma CoversCons(m: Match, rest: seq<Match>, q: nat)
    requires Covers(rest, q)
    ensures Covers([m] + rest, q)
  {
    var k :| 0 <= k < |rest| && rest[k].start <= q < rest[k].end;
    assert ([m] + rest)[k + 1] == rest[k];
  }

  // ---------------------------------------------------------------------
  // Headings.

  /** Length of the run of `c` that starts the line. */
  function LeadingRun(line: string, c: char): (m: nat)
    ensures m <= |line|
    ensures forall i :: 0 <= i < m ==> line[i] == c
    ensures m < |line| ==> line[m] != c
    decreases |line|
  {
    if line != [] && line[0] == c then 1 + LeadingRun(line[1..], c) else 0
  }

  /** Length of the run of `c` that ends the line. */
  function TrailingRun(line: string, c: char): (t: nat)
    ensures t <= |line|
    ensures forall i :: |line| - t <= i < |line| ==> line[i] == c
    ensures t < |line| ==> line[|line| - 1 - t] != c
    decreases |line|
  {
    if line != [] && line[|line| - 1] == c then 1 + TrailingRun(line[..|line| - 1], c) else 0
  }

  /**
   * `^#+(.+?)#*$` with `m` characters taken by `#+` and `k` by `(.+?)`: the
   * first `m` characters are '#', at least one character is captured, and
   * only '#' follows the capture.
   */
  predicate HeadingSplit(line: string, m: nat, k: nat) {
    && 1 <= m && 1 <= k && m + k <= |line|
    && (forall i :: 0 <= i < m ==> line[i] == '#')
    && (forall i :: m + k <= i < |line| ==> line[i] == '#')
  }

  /** Where the heading pattern's group starts in the line and how long it is. */
  function HeadingSpan(line: string): Option<(nat, nat)> {
    if line == [] || line[0] != '#' then None
    else
      var m := LeadingRun(line, '#');
      if m == |line| then (if m >= 2 then Some((m - 1, 1)) else None)
      else Some((m, |line| - TrailingRun(line, '#') - m))
  }

  /**
   * The heading pattern matches a line exactly when the line starts with '#'
   * and has a character after it; the split found is the one the regular
   * expression engine commits to: the longest `#+`, then the shortest group.
   */
  lemma HeadingSpanIsRegexMatch(line: string)
    ensures HeadingSpan(line).Some? <==> |line| >= 2 && line[0] == '#'
    ensures HeadingSpan(line).None? ==> forall m, k :: !HeadingSplit(line, m, k)
    ensures HeadingSpan(line).Some? ==>
              var (m, k) := HeadingSpan(line).value;
              && HeadingSplit(line, m, k)
              && forall m': nat, k': nat :: HeadingSplit(line, m', k') ==> m' < m || (m' == m && k <= k')
  {
    if |line| >= 2 && line[0] == '#' {
      var lead := LeadingRun(line, '#');
      var (m, k) := HeadingSpan(line).value;
      if lead == |line| {
        assert HeadingSplit(line, m, k);
      } else {
        var t := TrailingRun(line, '#');
        assert line[lead] != '#';
        assert lead < |line| - t;
        assert HeadingSplit(line, m, k);
        forall m': nat, k': nat | HeadingSplit(line, m', k') ensures m' < m || (m' == m && k <= k') {
          RunBound(line, m', lead);
          if m' == m {
            RunBoundFromEnd(line, m + k', |line| - 1 - t);
          }
        }
      }
    }
  }

  lemma RunBound(line: string, m: nat, i: nat)
    requires m <= |line| && i < |line| && line[i] != '#'
    requires forall x :: 0 <= x < m ==> line[x] == '#'
    ensures m <= i
  {
  }

  lemma RunBoundFromEnd(line: string, e: nat, i: nat)
    requires e <= |line| && i < |line| && line[i] != '#'
    requires forall x :: e <= x < |line| ==> line[x] == '#'
    ensures i < e
  {
  }

  /**
   * REGEX_SECTION.findall(line): the heading text of the line, if any; a line
   * yields at most one.
   */
  function HeadingOf(line: string): (r: Option<string>)
    ensures r.Some? ==> |r.value| >= 1
  {
    match HeadingSpan(line)
    case None => None
    case Some((m, k)) => Some(line[m..m + k])
  }

  /**
   * The heading text is the line without its leading and trailing runs of
   * '#'; a line made only of '#' characters (at least two) gives "#".
   */
  lemma HeadingOfStripsHashRuns(line: string)
    requires |line| >= 2 && line[0] == '#'
    ensures var h := HeadingOf(line).value;
            var lead := LeadingRun(line, '#');
            if lead == |line| then h == "#"
            else && h[0] != '#' && h[|h| - 1] != '#'
                 && line == line[..lead] + h + line[lead + |h|..]
                 && forall i :: lead + |h| <= i < |line| ==> line[i] == '#'
  {
    var lead := LeadingRun(line, '#');
    var h := HeadingOf(line).value;
    if lead < |line| {
      var t := TrailingRun(line, '#');
      assert line[lead] != '#';
      assert lead < |line| - t;
      assert h == line[lead..|line| - t];
      assert h[|h| - 1] == line[|line| - 1 - t];
      ThreeSlices(line, lead, |line| - t);
    }
  }

  lemma ThreeSlices(s: string, a: nat, b: nat)
    requires a <= b <= |s|
    ensures s == s[..a] + s[a..b] + s[b..]
  {
    assert s[..a] + s[a..b] == s[..b];
    assert s[..b] + s[b..] == s;
  }
}
