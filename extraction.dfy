/**
 * The extraction pass of wikicheck.py (lines 89-151): one loop over the lines
 * of a file fills three dictionaries,
 *
 *   sections   section id -> row of its heading
 *   bookmarks  row -> distinct `[x](#section)` targets of that row
 *   links      row -> article -> distinct sections requested of it
 *
 * The three patterns first turn every line into a `ScannedLine`; each
 * dictionary is then defined as a function of the scanned lines, and the
 * method `Extract`, which mutates the dictionaries row by row as the source
 * does, is proved to produce exactly those values.
 */
module Extraction {
  import opened Wrappers
  import opened Names
  import opened Scanners

  /** What the extraction pass records for one file. */
  datatype ArticleModel = ArticleModel(
    sections: map<string, nat>,
    bookmarks: map<nat, seq<string>>,
    links: map<nat, map<Option<string>, seq<Option<string>>>>)

  /**
   * What the three patterns find on one line: the base section id of its
   * heading, if it has one, and its link targets, in order.
   */
  datatype ScannedLine = ScannedLine(sectionId: Option<string>, bookmarks: seq<string>, wikilinks: seq<string>)

  function BaseId(line: string): (id: Option<string>)
    ensures id.Some? <==> HeadingOf(line).Some?
    ensures id.Some? ==> id.value == SectionNameToId(HeadingOf(line).value)
  {
    match HeadingOf(line)
    case None => None
    case Some(h) => Some(SectionNameToId(h))
  }

  /**
   * A line carries a section id exactly when it starts with '#' and has at
   * least one more character (the `^#+(.+?)#*$` pattern of wikicheck.py:9),
   * and the id is made of id characters only and is no longer than the
   * heading text.
   */
  lemma BaseIdShape(line: string)
    ensures BaseId(line).Some? <==> |line| >= 2 && line[0] == '#'
    ensures BaseId(line).Some? ==>
              && |BaseId(line).value| <= |line| - 1
              && forall c :: c in BaseId(line).value ==> IdChar(c)
  {
    HeadingOfFits(line);
    if HeadingOf(line).Some? {
      SectionNameToIdShape(HeadingOf(line).value);
    }
  }

  lemma HeadingOfFits(line: string)
    ensures HeadingOf(line).Some? <==> |line| >= 2 && line[0] == '#'
    ensures HeadingOf(line).Some? ==> |HeadingOf(line).value| <= |line| - 1
  {
    HeadingSpanIsRegexMatch(line);
    if |line| >= 2 && line[0] == '#' {
      var (m, k) := HeadingSpan(line).value;
      assert HeadingSplit(line, m, k);
    }
  }

  function ScanLine(line: string): ScannedLine {
    ScannedLine(BaseId(line), BookmarkTargets(line), LinkTargets(line))
  }

  function ScanLines(lines: seq<string>): (rows: seq<ScannedLine>)
    ensures |rows| == |lines| && forall r :: 0 <= r < |lines| ==> rows[r] == ScanLine(lines[r])
  {
    seq(|lines|, r requires 0 <= r < |lines| => ScanLine(lines[r]))
  }

  // ---------------------------------------------------------------------
  // Lists without repeats, built by `if x not in xs: xs.append(x)`.

  predicate NoDuplicates<T(==)>(xs: seq<T>) {
    forall i, j :: 0 <= i < j < |xs| ==> xs[i] != xs[j]
  }

  function AppendIfAbsent<T(==)>(xs: seq<T>, x: T): seq<T> {
    if x in xs then xs else xs + [x]
  }

  /** The elements of `xs` once each, in the order they first appear. */
  function Distinct<T(==,!new)>(xs: seq<T>): (d: seq<T>)
    ensures forall x :: x in d <==> x in xs
    ensures NoDuplicates(d)
    decreases |xs|
  {
    if xs == [] then [] else AppendIfAbsent(Distinct(xs[..|xs| - 1]), xs[|xs| - 1])
  }

  /**
   * Order of first appearance: an element listed before another one occurs
   * in `xs` before every occurrence of that other one.
   */
  lemma {:induction false} DistinctFirstAppearanceOrder<T(!new)>(xs: seq<T>, i: nat, j: nat, q: nat)
    requires i < j < |Distinct(xs)| && q < |xs| && xs[q] == Distinct(xs)[j]
    ensures Distinct(xs)[i] in xs[..q]
    decreases |xs|
  {
    var n := |xs|;
    var front := xs[..n - 1];
    var d := Distinct(front);
    assert Distinct(xs)[..|d|] == d;
    if q == n - 1 {
      assert xs[..q] == front;
      assert Distinct(xs)[i] == d[i];
    } else if j < |d| {
      DistinctFirstAppearanceOrder(front, i, j, q);
      assert front[..q] == xs[..q];
    } else {
      // the element at j was new with the last one, yet it occurs at q < n - 1
      assert false;
    }
  }

  // ---------------------------------------------------------------------
  // Section ids: the first free one of `id`, `id-1`, `id-2`, ...

  /** `original + '-' + str(offset)`. */
  function Suffixed(base: string, k: nat): string {
    base + "-" + NatToString(k)
  }

  lemma SuffixedDistinct(base: string, a: nat, b: nat)
    ensures Suffixed(base, a) != base
    ensures Suffixed(base, a) == Suffixed(base, b) ==> a == b
  {
    assert |Suffixed(base, a)| > |base|;
    if Suffixed(base, a) == Suffixed(base, b) {
      assert NatToString(a) == Suffixed(base, a)[|base| + 1..];
      assert NatToString(b) == Suffixed(base, b)[|base| + 1..];
      NatToStringInjective(a, b);
    }
  }

  /** When `base-1` ... `base-(k-1)` are all taken, there are at least k-1 keys. */
  lemma {:induction false} TakenSuffixesBound(keys: set<string>, base: string, k: nat)
    requires 1 <= k
    requires forall j :: 1 <= j < k ==> Suffixed(base, j) in keys
    ensures k - 1 <= |keys|
    decreases k
  {
    if k > 1 {
      var last := Suffixed(base, k - 1);
      var rest := keys - {last};
      forall j | 1 <= j < k - 1 ensures Suffixed(base, j) in rest {
        SuffixedDistinct(base, j, k - 1);
      }
      TakenSuffixesBound(rest, base, k - 1);
    }
  }

  /** The least k, from `from` on, for which `base-k` is not taken. */
  function LeastFreeSuffix(keys: set<string>, base: string, from: nat): (k: nat)
    requires 1 <= from
    requires forall j :: 1 <= j < from ==> Suffixed(base, j) in keys
    ensures from <= k && Suffixed(base, k) !in keys
    ensures forall j :: 1 <= j < k ==> Suffixed(base, j) in keys
    decreases |keys| + 1 - from
  {
    TakenSuffixesBound(keys, base, from);
    if Suffixed(base, from) !in keys then from
    else
      TakenSuffixesBound(keys, base, from + 1);
      LeastFreeSuffix(keys, base, from + 1)
  }

  /**
   * The id a heading with base id `base` receives: `base` itself when free,
   * otherwise `base-k` for the least k >= 1 that is free.
   */
  function FreshId(keys: set<string>, base: string): (id: string)
    ensures id !in keys
    ensures base !in keys ==> id == base
    ensures base in keys ==> exists k: nat ::
              && 1 <= k && id == Suffixed(base, k)
              && forall j :: 1 <= j < k ==> Suffixed(base, j) in keys
  {
    if base !in keys then base else Suffixed(base, LeastFreeSuffix(keys, base, 1))
  }

  /** The `while section in sections` loop of wikicheck.py:106-110. */
  method Disambiguate(sections: map<string, nat>, original: string) returns (section: string)
    ensures section == FreshId(sections.Keys, original)
  {
    section := original;
    var offset: nat := 1;
    while section in sections
      invariant 1 <= offset
      invariant offset > 1 ==> original in sections
      invariant forall j :: 1 <= j < offset - 1 ==> Suffixed(original, j) in sections
      invariant section == if offset == 1 then original else Suffixed(original, offset - 1)
      decreases |sections.Keys| + 1 - offset
    {
      TakenSuffixesBound(sections.Keys, original, offset);
      section := original + "-" + NatToString(offset);
      offset := offset + 1;
    }
    if offset > 1 {
      var k := LeastFreeSuffix(sections.Keys, original, 1);
      assert Suffixed(original, k) !in sections;
      assert k == offset - 1;
    }
  }

  /** One row's effect on `sections` (wikicheck.py:103-111). */
  function AddHeading(sections: map<string, nat>, baseId: Option<string>, row: nat): map<string, nat> {
    match baseId
    case None => sections
    case Some(base) => sections[FreshId(sections.Keys, base) := row]
  }

  /**
   * A heading adds exactly one key, which was not there before; the entries
   * already present keep their rows.
   */
  lemma AddHeadingAddsOneKey(sections: map<string, nat>, baseId: Option<string>, row: nat)
    ensures var after := AddHeading(sections, baseId, row);
            && (forall id :: id in sections ==> id in after && after[id] == sections[id])
            && match baseId
               case None => after == sections
               case Some(base) =>
                 var id := FreshId(sections.Keys, base);
                 id !in sections && after.Keys == sections.Keys + {id} && after[id] == row
  {
  }

  /** `sections` after the given rows. */
  function SectionsOf(rows: seq<ScannedLine>): map<string, nat>
    decreases |rows|
  {
    if rows == [] then map[]
    else AddHeading(SectionsOf(rows[..|rows| - 1]), rows[|rows| - 1].sectionId, |rows| - 1)
  }

  /** Every id is recorded against a row that holds a heading. */
  lemma {:induction false} SectionRowsAreHeadings(rows: seq<ScannedLine>)
    ensures forall id :: id in SectionsOf(rows) ==>
              SectionsOf(rows)[id] < |rows| && rows[SectionsOf(rows)[id]].sectionId.Some?
    decreases |rows|
  {
    if rows != [] {
      var n := |rows|;
      var front := rows[..n - 1];
      var before := SectionsOf(front);
      SectionRowsAreHeadings(front);
      AddHeadingAddsOneKey(before, rows[n - 1].sectionId, n - 1);
      forall id | id in SectionsOf(rows)
        ensures SectionsOf(rows)[id] < n && rows[SectionsOf(rows)[id]].sectionId.Some?
      {
        if id in before {
          assert front[before[id]] == rows[before[id]];
        }
      }
    }
  }

  /** No two ids share a row. */
  lemma {:induction false} SectionRowsDistinct(rows: seq<ScannedLine>)
    ensures forall id1, id2 :: id1 in SectionsOf(rows) && id2 in SectionsOf(rows) && id1 != id2 ==>
              SectionsOf(rows)[id1] != SectionsOf(rows)[id2]
    decreases |rows|
  {
    if rows != [] {
      var n := |rows|;
      var front := rows[..n - 1];
      var before := SectionsOf(front);
      SectionRowsDistinct(front);
      SectionRowsAreHeadings(front);
      AddHeadingAddsOneKey(before, rows[n - 1].sectionId, n - 1);
    }
  }

  /** Every row holding a heading has an id. */
  lemma {:induction false} HeadingRowsHaveIds(rows: seq<ScannedLine>)
    ensures forall r :: 0 <= r < |rows| && rows[r].sectionId.Some? ==> r in SectionsOf(rows).Values
    decreases |rows|
  {
    if rows != [] {
      var n := |rows|;
      var front := rows[..n - 1];
      var before := SectionsOf(front);
      var after := SectionsOf(rows);
      HeadingRowsHaveIds(front);
      AddHeadingAddsOneKey(before, rows[n - 1].sectionId, n - 1);
      forall r | 0 <= r < n && rows[r].sectionId.Some? ensures r in after.Values {
        if r < n - 1 {
          assert front[r] == rows[r];
          var id :| id in before && before[id] == r;
          assert after[id] == r;
        } else {
          var id := FreshId(before.Keys, rows[r].sectionId.value);
          assert after[id] == r;
        }
      }
    }
  }

  /**
   * The base id of every heading is a key: either it was free and the
   * heading took it, or an earlier entry already held it.
   */
  lemma {:induction false} BaseIdsAreKeys(rows: seq<ScannedLine>, r: nat)
    requires r < |rows| && rows[r].sectionId.Some?
    ensures rows[r].sectionId.value in SectionsOf(rows)
    decreases |rows|
  {
    var n := |rows|;
    var front := rows[..n - 1];
    AddHeadingAddsOneKey(SectionsOf(front), rows[n - 1].sectionId, n - 1);
    if r < n - 1 {
      assert front[r] == rows[r];
      BaseIdsAreKeys(front, r);
    }
  }

  /** A line `#` + space + text, the text neither starting nor ending with '#'. */
  lemma SimpleHeading(line: string)
    requires |line| >= 3 && line[0] == '#' && line[1] == ' ' && line[|line| - 1] != '#'
    ensures HeadingOf(line) == Some(line[1..])
  {
    assert LeadingRun(line[1..], '#') == 0;
    assert LeadingRun(line, '#') == 1;
    assert TrailingRun(line, '#') == 0;
    assert HeadingSpan(line) == Some((1, |line| - 1));
    assert line[1..|line|] == line[1..];
  }

  /**
   * Two headings with the same id on rows 0 and 1: the first takes the id,
   * the second the id with suffix `-1`.
   */
  lemma RepeatedHeading(rows: seq<ScannedLine>, id: string)
    requires |rows| == 2
    requires rows[0].sectionId == Some(id) && rows[1].sectionId == Some(id)
    ensures SectionsOf(rows) == map[id := 0, Suffixed(id, 1) := 1]
  {
    var empty: map<string, nat> := map[];
    assert rows[..1][..0] == [];
    assert rows[..1][0] == rows[0];
    assert SectionsOf(rows[..1][..0]) == empty;
    assert FreshId(empty.Keys, id) == id;
    var first := SectionsOf(rows[..1]);
    assert first == map[id := 0];
    assert first.Keys == {id};
    SuffixedDistinct(id, 1, 1);
    assert LeastFreeSuffix(first.Keys, id, 1) == 1;
  }

  /**
   * Two heading lines whose texts agree up to case and surrounding
   * whitespace (such as `# Setup` and `# setup`): the first takes the id,
   * the second the id with `-1` appended.
   */
  lemma SameHeadingTwice(lines: seq<string>)
    requires |lines| == 2 && HeadingOf(lines[0]).Some? && HeadingOf(lines[1]).Some?
    requires Lower(Strip(HeadingOf(lines[0]).value)) == Lower(Strip(HeadingOf(lines[1]).value))
    ensures var id := SectionNameToId(HeadingOf(lines[0]).value);
            SectionsOf(ScanLines(lines)) == map[id := 0, id + "-1" := 1]
  {
    var id := SectionNameToId(HeadingOf(lines[0]).value);
    SameHeadingIds(lines);
    RepeatedHeading(ScanLines(lines), id);
    SuffixOne(id);
  }

  lemma SameHeadingIds(lines: seq<string>)
    requires |lines| == 2 && HeadingOf(lines[0]).Some? && HeadingOf(lines[1]).Some?
    requires Lower(Strip(HeadingOf(lines[0]).value)) == Lower(Strip(HeadingOf(lines[1]).value))
    ensures var id := SectionNameToId(HeadingOf(lines[0]).value);
            ScanLines(lines)[0].sectionId == Some(id) && ScanLines(lines)[1].sectionId == Some(id)
  {
    SectionNameToIdOfNormalised(HeadingOf(lines[0]).value, HeadingOf(lines[1]).value);
  }

  lemma SuffixOne(id: string)
    ensures Suffixed(id, 1) == id + "-1"
  {
    assert NatToString(1) == "1";
  }

  // ---------------------------------------------------------------------
  // Bookmarks.

  function Targets(ms: seq<Match>): (ts: seq<string>)
    ensures |ts| == |ms| && forall i :: 0 <= i < |ms| ==> ts[i] == ms[i].target
  {
    seq(|ms|, i requires 0 <= i < |ms| => ms[i].target)
  }

  /** The sections of a line's `[x](#section)` matches, in order, repeats included. */
  function BookmarkTargets(line: string): seq<string> {
    Targets(FindAll(Bookmark, line, 0))
  }

  /** `bookmarks` after the first `n` rows. */
  function BookmarksUpTo(rows: seq<ScannedLine>, n: nat): map<nat, seq<string>>
    requires n <= |rows|
  {
    map r: nat | r < n && rows[r].bookmarks != [] :: Distinct(rows[r].bookmarks)
  }

  /** A line reports no bookmark exactly when no bookmark occurs in it. */
  lemma BookmarkTargetsEmpty(line: string)
    ensures BookmarkTargets(line) == [] <==> forall q, x, s :: !IsBookmarkAt(line, q, x, s)
  {
    var ms := FindAll(Bookmark, line, 0);
    FindAllSound(Bookmark, line, 0);
    if exists q, x, s :: IsBookmarkAt(line, q, x, s) {
      var q, x, s :| IsBookmarkAt(line, q, x, s);
      assert IsMatchAt(Bookmark, line, q, x, s);
      FindAllLeftmost(Bookmark, line, 0, q, x, s);
    }
    if ms != [] {
      assert IsMatchAt(Bookmark, line, ms[0].start, ms[0].text, ms[0].target);
    }
  }

  /** Every section a line reports is the target of one of its bookmarks. */
  lemma BookmarkTargetsAreTargets(line: string, s: string)
    requires s in BookmarkTargets(line)
    ensures |s| >= 1 && NoneOf(s, {'(', ')'})
    ensures exists q, x :: IsBookmarkAt(line, q, x, s)
  {
    var ms := FindAll(Bookmark, line, 0);
    FindAllSound(Bookmark, line, 0);
    var i :| 0 <= i < |ms| && BookmarkTargets(line)[i] == s;
    assert IsMatchAt(Bookmark, line, ms[i].start, ms[i].text, ms[i].target);
  }

  /** Some match of `ms` starts before `q` and ends after it. */
  predicate Overlapped(ms: seq<Match>, q: nat) {
    exists k :: 0 <= k < |ms| && ms[k].start < q < ms[k].end
  }

  /**
   * Every match of a pattern on a line has its target reported, unless it
   * starts strictly inside a reported match (findall resumes after the end
   * of each match, so such a match is overlapped and skipped).
   */
  lemma TargetsComplete(pattern: Pattern, line: string, q: nat, x: string, s: string)
    requires IsMatchAt(pattern, line, q, x, s)
    ensures || s in Targets(FindAll(pattern, line, 0))
            || Overlapped(FindAll(pattern, line, 0), q)
  {
    assert q <= |line| by {
      match pattern
      case Bookmark =>
      case Wikilink =>
    }
    var ms := FindAll(pattern, line, 0);
    FindAllComplete(pattern, line, 0, q, x, s);
    var k :| 0 <= k < |ms| && ms[k].start <= q < ms[k].end;
    if ms[k].start == q {
      FindAllSound(pattern, line, 0);
      assert IsMatchAt(pattern, line, q, ms[k].text, ms[k].target);
      MatchAtComplete(pattern, line, q, ms[k].text, ms[k].target);
      MatchAtComplete(pattern, line, q, x, s);
      assert Targets(ms)[k] == s;
    }
  }

  /** Every bookmark on a line is reported, unless a reported bookmark overlaps its start. */
  lemma BookmarkTargetsComplete(line: string)
    ensures forall q: nat, x, s :: IsBookmarkAt(line, q, x, s) ==>
              || s in Distinct(BookmarkTargets(line))
              || Overlapped(FindAll(Bookmark, line, 0), q)
  {
    forall q: nat, x, s | IsBookmarkAt(line, q, x, s)
      ensures || s in Distinct(BookmarkTargets(line))
              || Overlapped(FindAll(Bookmark, line, 0), q)
    {
      assert IsMatchAt(Bookmark, line, q, x, s);
      TargetsComplete(Bookmark, line, q, x, s);
      if s in BookmarkTargets(line) {
        assert s in Distinct(BookmarkTargets(line));
      }
    }
  }

  /** Every wikilink on a line is reported, unless a reported wikilink overlaps its start. */
  lemma LinkTargetsComplete(line: string, q: nat, x: string, s: string)
    requires IsWikilinkAt(line, q, x, s)
    ensures || s in LinkTargets(line)
            || Overlapped(FindAll(Wikilink, line, 0), q)
  {
    assert IsMatchAt(Wikilink, line, q, x, s);
    TargetsComplete(Wikilink, line, q, x, s);
  }

  /**
   * A row has an entry exactly when it holds a bookmark; the entry lists
   * each section once, every one of them the target of a bookmark on that
   * row, which is never empty and holds no parenthesis; and every bookmark
   * of the row is listed, unless it starts inside an earlier one that
   * findall reported.
   */
  lemma BookmarksShape(lines: seq<string>, r: nat)
    requires r < |lines|
    ensures var b := BookmarksUpTo(ScanLines(lines), |lines|);
            && (r in b <==> exists q, x, s :: IsBookmarkAt(lines[r], q, x, s))
            && (r in b ==> NoDuplicates(b[r]))
            && (r in b ==> forall s :: s in b[r] ==>
                  (|s| >= 1 && NoneOf(s, {'(', ')'}) && exists q, x :: IsBookmarkAt(lines[r], q, x, s)))
            && (forall q: nat, x, s :: IsBookmarkAt(lines[r], q, x, s) ==>
                  || (r in b && s in b[r])
                  || Overlapped(FindAll(Bookmark, lines[r], 0), q))
  {
    var line := lines[r];
    BookmarkTargetsComplete(line);
    assert ScanLines(lines)[r].bookmarks == BookmarkTargets(line);
    BookmarkTargetsEmpty(line);
    forall s | s in Distinct(BookmarkTargets(line))
      ensures |s| >= 1 && NoneOf(s, {'(', ')'}) && exists q, x :: IsBookmarkAt(line, q, x, s)
    {
      BookmarkTargetsAreTargets(line, s);
    }
  }

  // ---------------------------------------------------------------------
  // Wikilinks.

  /** The outcome of `link.split('#', 1)` with empty parts turned into None. */
  datatype Request = Request(article: Option<string>, section: Option<string>)

  function FirstIndexOf(s: string, c: char): (k: nat)
    ensures k <= |s|
    ensures forall i :: 0 <= i < k ==> s[i] != c
    ensures k < |s| ==> s[k] == c
  {
    FirstOf(s, 0, {c})
  }

  function NoneIfEmpty(s: string): (r: Option<string>)
    ensures r.None? <==> s == ""
    ensures r.Some? ==> r.value == s
  {
    if s == "" then None else Some(s)
  }

  function OrEmpty(o: Option<string>): string {
    if o.Some? then o.value else ""
  }

  /**
   * Splits a wikilink target on its first '#' (wikicheck.py:129-137): the
   * part before is the article, the part after the section, each None when
   * empty; with no '#' there is no section.
   */
  function SplitTarget(link: string): Request {
    var k := FirstIndexOf(link, '#');
    if k == |link| then Request(NoneIfEmpty(link), None)
    else Request(NoneIfEmpty(link[..k]), NoneIfEmpty(link[k + 1..]))
  }

  /**
   * With no '#', the whole target is the article and there is no section;
   * otherwise the article holds no '#' and the target is recovered from the
   * two parts. Neither part is ever the empty string.
   */
  lemma SplitTargetParts(link: string)
    ensures var r := SplitTarget(link);
            ('#' !in link ==> r.section == None && OrEmpty(r.article) == link) &&
            ('#' in link ==> '#' !in OrEmpty(r.article) && link == OrEmpty(r.article) + "#" + OrEmpty(r.section)) &&
            r.article != Some("") && r.section != Some("")
  {
    var k := FirstIndexOf(link, '#');
    if k < |link| {
      assert link == link[..k] + "#" + link[k + 1..];
      assert forall c :: c in link[..k] ==> c != '#';
    }
  }

  /** Some target passes the scheme filter. */
  predicate Kept(targets: seq<string>, skip: string -> bool) {
    exists i :: 0 <= i < |targets| && !skip(targets[i])
  }

  type LinkTable = map<Option<string>, seq<Option<string>>>

  /** One kept wikilink's effect on `links[row]` (wikicheck.py:138-141). */
  function AddRequest(table: LinkTable, req: Request): LinkTable {
    var sections := if req.article in table then table[req.article] else [];
    table[req.article := AppendIfAbsent(sections, req.section)]
  }

  /** `links[row]` after the targets of that row the filter lets through. */
  function TableOf(targets: seq<string>, skip: string -> bool): LinkTable
    decreases |targets|
  {
    if targets == [] then map[]
    else
      var before := TableOf(targets[..|targets| - 1], skip);
      var t := targets[|targets| - 1];
      if skip(t) then before else AddRequest(before, SplitTarget(t))
  }

  /**
   * The sections the kept targets request of `article`, in order, repeats
   * included.
   */
  function RequestedSections(targets: seq<string>, skip: string -> bool, article: Option<string>): seq<Option<string>>
    decreases |targets|
  {
    if targets == [] then []
    else
      var before := RequestedSections(targets[..|targets| - 1], skip, article);
      var t := targets[|targets| - 1];
      var r := SplitTarget(t);
      if !skip(t) && r.article == article then before + [r.section] else before
  }

  /** The table has an entry for exactly the articles some kept target names. */
  lemma {:induction false} TableOfKeys(targets: seq<string>, skip: string -> bool)
    ensures forall a :: a in TableOf(targets, skip) <==> RequestedSections(targets, skip, a) != []
    decreases |targets|
  {
    if targets != [] {
      TableOfKeys(targets[..|targets| - 1], skip);
    }
  }

  /** The table is empty exactly when the filter keeps none of the targets. */
  lemma {:induction false} TableOfEmpty(targets: seq<string>, skip: string -> bool)
    ensures TableOf(targets, skip) == map[] <==> !Kept(targets, skip)
    decreases |targets|
  {
    if targets != [] {
      var front := targets[..|targets| - 1];
      var t := targets[|targets| - 1];
      TableOfEmpty(front, skip);
      if Kept(front, skip) {
        var i :| 0 <= i < |front| && !skip(front[i]);
        assert targets[i] == front[i];
      }
      if Kept(targets, skip) && skip(t) {
        var i :| 0 <= i < |targets| && !skip(targets[i]);
        assert front[i] == targets[i];
      }
      if !skip(t) {
        assert SplitTarget(t).article in TableOf(targets, skip);
      }
    }
  }

  /**
   * Each entry lists the sections requested of that article once each, in
   * order of first appearance.
   */
  lemma {:induction false} TableOfIsDistinctRequests(targets: seq<string>, skip: string -> bool, a: Option<string>)
    requires a in TableOf(targets, skip)
    ensures TableOf(targets, skip)[a] == Distinct(RequestedSections(targets, skip, a))
    decreases |targets|
  {
    var front := targets[..|targets| - 1];
    var t := targets[|targets| - 1];
    var r := SplitTarget(t);
    var before := TableOf(front, skip);
    var older := RequestedSections(front, skip, a);
    var rs := RequestedSections(targets, skip, a);
    TableOfKeys(front, skip);
    var old_entry := if a in before then before[a] else [];
    assert old_entry == Distinct(older) by {
      if a in before {
        TableOfIsDistinctRequests(front, skip, a);
      }
    }
    if !skip(t) && r.article == a {
      assert rs == older + [r.section];
      assert rs[..|rs| - 1] == older;
      assert Distinct(rs) == AppendIfAbsent(Distinct(older), r.section);
      assert TableOf(targets, skip)[a] == AppendIfAbsent(old_entry, r.section);
    } else {
      assert rs == older;
      assert TableOf(targets, skip)[a] == before[a];
    }
  }

  /** A kept target's section is among those requested of its article. */
  lemma {:induction false} RequestedSectionsHasKept(targets: seq<string>, skip: string -> bool, i: nat)
    requires i < |targets| && !skip(targets[i])
    ensures SplitTarget(targets[i]).section in RequestedSections(targets, skip, SplitTarget(targets[i]).article)
    decreases |targets|
  {
    if i < |targets| - 1 {
      var front := targets[..|targets| - 1];
      assert front[i] == targets[i];
      RequestedSectionsHasKept(front, skip, i);
    }
  }

  /**
   * Every target the filter keeps is recorded: its article has an entry
   * that lists its section.
   */
  lemma KeptTargetRecorded(targets: seq<string>, skip: string -> bool, i: nat)
    requires i < |targets| && !skip(targets[i])
    ensures var r := SplitTarget(targets[i]);
            r.article in TableOf(targets, skip) && r.section in TableOf(targets, skip)[r.article]
  {
    var r := SplitTarget(targets[i]);
    RequestedSectionsHasKept(targets, skip, i);
    TableOfKeys(targets, skip);
    TableOfIsDistinctRequests(targets, skip, r.article);
  }

  /** The targets of a line's `[[label|target]]` matches, in order, repeats included. */
  function LinkTargets(line: string): seq<string> {
    Targets(FindAll(Wikilink, line, 0))
  }

  /** The link map once a row's wikilink targets are read. */
  function WithRow(links: map<nat, LinkTable>, row: nat, targets: seq<string>, skip: string -> bool): map<nat, LinkTable> {
    if Kept(targets, skip) then links[row := TableOf(targets, skip)] else links
  }

  /** `links` after the first `n` rows. */
  function LinksUpTo(rows: seq<ScannedLine>, n: nat, skip: string -> bool): map<nat, LinkTable>
    requires n <= |rows|
    decreases n
  {
    if n == 0 then map[]
    else WithRow(LinksUpTo(rows, n - 1, skip), n - 1, rows[n - 1].wikilinks, skip)
  }

  /** A row has an entry exactly when the filter keeps one of its wikilinks. */
  lemma {:induction false} LinksUpToRows(rows: seq<ScannedLine>, n: nat, skip: string -> bool, r: nat)
    requires n <= |rows|
    ensures r in LinksUpTo(rows, n, skip) <==> r < n && Kept(rows[r].wikilinks, skip)
    decreases n
  {
    if n > 0 {
      LinksUpToRows(rows, n - 1, skip, r);
    }
  }

  /** The entry of a row is the table of the row's wikilink targets. */
  lemma {:induction false} LinksUpToValue(rows: seq<ScannedLine>, n: nat, skip: string -> bool, r: nat)
    requires r < n <= |rows| && r in LinksUpTo(rows, n, skip)
    ensures LinksUpTo(rows, n, skip)[r] == TableOf(rows[r].wikilinks, skip)
    decreases n
  {
    LinksUpToRows(rows, n - 1, skip, r);
    if r < n - 1 {
      LinksUpToValue(rows, n - 1, skip, r);
    }
  }

  /**
   * wikicheck.py:124-126 as written: `urlparse(link).scheme` is a string
   * (empty when the target has no scheme) and never None, so
   * `url.scheme is not None` holds and every wikilink is skipped.
   */
  predicate SkipAsWritten(link: string) {
    true
  }

  /**
   * The evident intent of wikicheck.py:124-126: skip a target exactly when
   * urlparse finds a scheme in it; `scheme` stands for
   * `urlparse.urlparse(link).scheme`.
   */
  function SkipIntended(scheme: string -> string): string -> bool {
    link => scheme(link) != ""
  }

  /** With the filter as written, `links` stays empty for every file. */
  lemma AsWrittenLinksEmpty(rows: seq<ScannedLine>)
    ensures LinksUpTo(rows, |rows|, SkipAsWritten) == map[]
  {
    var links := LinksUpTo(rows, |rows|, SkipAsWritten);
    forall r | r in links ensures false {
      LinksUpToRows(rows, |rows|, SkipAsWritten, r);
    }
  }

  /** The record of one file, as its scanned lines determine it. */
  function ModelOf(lines: seq<string>, skip: string -> bool): ArticleModel {
    var rows := ScanLines(lines);
    ArticleModel(SectionsOf(rows), BookmarksUpTo(rows, |rows|), LinksUpTo(rows, |rows|, skip))
  }

  /**
   * A wikilink the filter keeps on row `r` of a file appears in the file's
   * record under that row, its article and its section.
   */
  lemma KeptLinkInModel(lines: seq<string>, skip: string -> bool, r: nat, i: nat)
    requires r < |lines| && i < |LinkTargets(lines[r])| && !skip(LinkTargets(lines[r])[i])
    ensures var links := ModelOf(lines, skip).links;
            var req := SplitTarget(LinkTargets(lines[r])[i]);
            r in links && req.article in links[r] && req.section in links[r][req.article]
  {
    var rows := ScanLines(lines);
    ScannedRow(lines, r);
    LinksUpToRows(rows, |rows|, skip, r);
    LinksUpToValue(rows, |rows|, skip, r);
    KeptTargetRecorded(rows[r].wikilinks, skip, i);
  }

  // ---------------------------------------------------------------------
  // The extraction loop.

  /**
   * wikicheck.py:92-151 for one file, the file given as its lines without
   * terminators and the scheme filter as `skip`.
   */
  method Extract(lines: seq<string>, skip: string -> bool) returns (model: ArticleModel)
    ensures model == ModelOf(lines, skip)
  {
    ghost var rows := ScanLines(lines);
    var sections: map<string, nat> := map[];
    var bookmarks: map<nat, seq<string>> := map[];
    var links: map<nat, LinkTable> := map[];
    var row := 0;
    while row < |lines|
      invariant row <= |lines|
      invariant sections == SectionsOf(rows[..row])
      invariant bookmarks == BookmarksUpTo(rows, row)
      invariant links == LinksUpTo(rows, row, skip)
    {
      var line := lines[row];
      BookmarksUpToKeys(rows, row);
      LinksUpToKeys(rows, row, skip);
      ScannedRow(lines, row);
      SectionsOfNext(rows, row);

      // extract sections
      sections := AddRowSection(sections, row, line);

      // extract bookmarks
      bookmarks := AddRowBookmarks(bookmarks, row, BookmarkTargets(line));
      BookmarksUpToNext(rows, row);

      // extract links
      links := AddRowLinks(links, row, LinkTargets(line), skip);

      // next row
      row := row + 1;
    }
    assert rows[..|lines|] == rows;
    model := ArticleModel(sections, bookmarks, links);
  }

  lemma SectionsOfNext(rows: seq<ScannedLine>, row: nat)
    requires row < |rows|
    ensures SectionsOf(rows[..row + 1]) == AddHeading(SectionsOf(rows[..row]), rows[row].sectionId, row)
  {
    assert rows[..row + 1][..row] == rows[..row];
  }

  /** The scanned row holds what the line's three patterns yield. */
  lemma ScannedRow(lines: seq<string>, row: nat)
    requires row < |lines|
    ensures ScanLines(lines)[row].sectionId == BaseId(lines[row])
    ensures ScanLines(lines)[row].bookmarks == BookmarkTargets(lines[row])
    ensures ScanLines(lines)[row].wikilinks == LinkTargets(lines[row])
  {
  }

  /**
   * wikicheck.py:102-111 for one line: a heading's id, made unique with the
   * first free `-k` suffix, is mapped to the row.
   */
  method AddRowSection(sections: map<string, nat>, row: nat, line: string) returns (result: map<string, nat>)
    ensures result == AddHeading(sections, BaseId(line), row)
  {
    result := sections;
    var heading := HeadingOf(line);
    if heading.Some? {
      var section := Disambiguate(sections, SectionNameToId(heading.value));
      result := sections[section := row];
    }
  }

  /** Keys of the bookmark map are rows already read. */
  lemma BookmarksUpToKeys(rows: seq<ScannedLine>, n: nat)
    requires n <= |rows|
    ensures forall r :: r in BookmarksUpTo(rows, n) ==> r < n
  {
  }

  /** Keys of the link map are rows already read. */
  lemma LinksUpToKeys(rows: seq<ScannedLine>, n: nat, skip: string -> bool)
    requires n <= |rows|
    ensures forall r :: r in LinksUpTo(rows, n, skip) ==> r < n
  {
    forall r | r in LinksUpTo(rows, n, skip) ensures r < n {
      LinksUpToRows(rows, n, skip, r);
    }
  }

  /**
   * wikicheck.py:114-119 for one line: the row gets an entry listing its
   * bookmark targets without repeats, in order of first appearance, and
   * only when the line has a bookmark at all.
   */
  method AddRowBookmarks(bookmarks: map<nat, seq<string>>, row: nat, marks: seq<string>)
    returns (result: map<nat, seq<string>>)
    requires row !in bookmarks
    ensures result == if marks == [] then bookmarks else bookmarks[row := Distinct(marks)]
  {
    result := bookmarks;
    var i := 0;
    while i < |marks|
      invariant i <= |marks|
      invariant result == if i == 0 then bookmarks else bookmarks[row := Distinct(marks[..i])]
    {
      var section := marks[i];
      if row !in result {
        result := result[row := []];
      }
      if section !in result[row] {
        result := result[row := result[row] + [section]];
      }
      assert marks[..i + 1][..i] == marks[..i];
      i := i + 1;
    }
    assert marks[..|marks|] == marks;
  }

  /** Writing a row twice leaves the second value. */
  lemma ReplaceRow<V>(m: map<nat, V>, row: nat, x: V, y: V)
    ensures m[row := x][row := y] == m[row := y]
  {
  }

  /** The three dictionary updates of wikicheck.py:138-141 add one request. */
  lemma AddRequestSteps(table: LinkTable, req: Request)
    ensures var t1 := if req.article in table then table else table[req.article := []];
            AddRequest(table, req) ==
              if req.section in t1[req.article] then t1
              else t1[req.article := t1[req.article] + [req.section]]
  {
  }

  /**
   * wikicheck.py:129-141 for one kept wikilink: split the target and
   * record the requested section under its article, once.
   */
  method AddLink(table: LinkTable, link: string) returns (result: LinkTable)
    ensures result == AddRequest(table, SplitTarget(link))
  {
    var req := SplitTarget(link);
    AddRequestSteps(table, req);
    result := table;
    if req.article !in result {
      result := result[req.article := []];
    }
    if req.section !in result[req.article] {
      result := result[req.article := result[req.article] + [req.section]];
    }
  }

  /**
   * Reading one more target of the row: a skipped one changes nothing, a
   * kept one is one more request in the row's table, which starts empty.
   */
  lemma WithRowSnoc(links: map<nat, LinkTable>, row: nat, targets: seq<string>, k: nat, skip: string -> bool)
    requires row !in links && k < |targets|
    ensures var m := WithRow(links, row, targets[..k], skip);
            (if row in m then m[row] else map[]) == TableOf(targets[..k], skip)
    ensures skip(targets[k]) ==>
              WithRow(links, row, targets[..k + 1], skip) == WithRow(links, row, targets[..k], skip)
    ensures !skip(targets[k]) ==>
              WithRow(links, row, targets[..k], skip)[row := AddRequest(TableOf(targets[..k], skip), SplitTarget(targets[k]))] ==
              WithRow(links, row, targets[..k + 1], skip)
  {
    var front := targets[..k];
    var next := targets[..k + 1];
    assert next[..k] == front;
    TableOfEmpty(front, skip);
    if Kept(front, skip) {
      var i :| 0 <= i < |front| && !skip(front[i]);
      assert next[i] == front[i];
    }
    if skip(targets[k]) && Kept(next, skip) {
      var i :| 0 <= i < |next| && !skip(next[i]);
      assert front[i] == next[i];
    }
    if !skip(targets[k]) {
      assert Kept(next, skip) by {
        assert !skip(next[k]);
      }
      if Kept(front, skip) {
        ReplaceRow(links, row, TableOf(front, skip), TableOf(next, skip));
      }
    }
  }

  /**
   * wikicheck.py:121-141 for one line: the row gets an entry exactly when
   * the filter keeps one of its wikilinks, and the entry is the table of
   * those targets.
   */
  method AddRowLinks(links: map<nat, LinkTable>, row: nat, wikis: seq<string>, skip: string -> bool)
    returns (result: map<nat, LinkTable>)
    requires row !in links
    ensures result == if Kept(wikis, skip) then links[row := TableOf(wikis, skip)] else links
  {
    result := links;
    var k := 0;
    while k < |wikis|
      invariant k <= |wikis|
      invariant result == WithRow(links, row, wikis[..k], skip)
    {
      var link := wikis[k];
      WithRowSnoc(links, row, wikis, k, skip);
      if !skip(link) {
        var table := if row in result then result[row] else map[];
        table := AddLink(table, link);
        result := result[row := table];
      }
      k := k + 1;
    }
    assert wikis[..|wikis|] == wikis;
  }

  lemma BookmarksUpToNext(rows: seq<ScannedLine>, row: nat)
    requires row < |rows|
    ensures BookmarksUpTo(rows, row + 1) ==
              if rows[row].bookmarks == [] then BookmarksUpTo(rows, row)
              else BookmarksUpTo(rows, row)[row := Distinct(rows[row].bookmarks)]
  {
  }
}
