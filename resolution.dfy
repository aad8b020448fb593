/**
 * The reference checks of wikicheck.py (lines 153-211) and the program as
 * a whole (lines 56-211). Each warning becomes a `Finding`; the warnings of
 * a run are collected as a set, since the source visits its dictionaries in
 * no order the model fixes.
 *
 * The pass is written over the stem function `stem`; the program applies it
 * with `Names.Stem`.
 */
module Resolution {
  import opened Wrappers
  import opened Names
  import opened Extraction
  import opened Gate

  datatype Kind = MissingSection | MissingArticle

  /** What a warning's "Target" line names: an article and maybe a section. */
  datatype Target = Target(article: Option<string>, section: Option<string>)

  /** One warning: its kind, the file it is in, its 1-based line and its target. */
  datatype Finding = Finding(kind: Kind, file: string, line: nat, target: Target)

  type Corpus = map<string, ArticleModel>

  // ---------------------------------------------------------------------
  // What the checks report.

  /** The warnings for the bookmarks of one row (wikicheck.py:161-174). */
  function RowBookmarkFindings(stem: string -> string, name: string, sections: map<string, nat>, row: nat, marks: seq<string>): set<Finding> {
    set i | 0 <= i < |marks| && marks[i] !in sections ::
      Finding(MissingSection, name, row + 1, Target(Some(stem(name)), Some(marks[i])))
  }

  /** The bookmark warnings of the rows `rows` of one file. */
  function BookmarkFindingsOn(stem: string -> string, name: string, m: ArticleModel, rows: set<nat>): set<Finding> {
    set row, f | row in rows && row in m.bookmarks && f in RowBookmarkFindings(stem, name, m.sections, row, m.bookmarks[row]) :: f
  }

  /** Some file's stem is `article` (wikicheck.py:182-185). */
  predicate ArticleExists(stem: string -> string, files: set<string>, article: Option<string>) {
    exists n :: n in files && article == Some(stem(n))
  }

  /** Some file among `files` is the article and lacks the section (wikicheck.py:187). */
  predicate SectionMissing(stem: string -> string, articles: Corpus, files: set<string>, article: Option<string>, section: Option<string>) {
    exists n :: n in files && n in articles && article == Some(stem(n)) &&
      section.Some? && section.value !in articles[n].sections
  }

  /** The warnings for one requested (article, section) entry (wikicheck.py:181-211). */
  function EntryFindings(stem: string -> string, articles: Corpus, name: string, row: nat, article: Option<string>, section: Option<string>): set<Finding> {
    var target := Target(article, section);
    (if SectionMissing(stem, articles, articles.Keys, article, section)
     then {Finding(MissingSection, name, row + 1, target)} else {}) +
    (if !ArticleExists(stem, articles.Keys, article)
     then {Finding(MissingArticle, name, row + 1, target)} else {})
  }

  /** The warnings for the sections `sections` requested of `article` on one row. */
  function SectionsFindings(stem: string -> string, articles: Corpus, name: string, row: nat, article: Option<string>, sections: seq<Option<string>>): set<Finding> {
    set i, f | 0 <= i < |sections| && f in EntryFindings(stem, articles, name, row, article, sections[i]) :: f
  }

  /** The warnings for the articles `keys` of one row's link table. */
  function TableFindingsOn(stem: string -> string, articles: Corpus, name: string, row: nat, table: LinkTable, keys: set<Option<string>>): set<Finding> {
    set a, f | a in keys && a in table && f in SectionsFindings(stem, articles, name, row, a, table[a]) :: f
  }

  /** The wikilink warnings of the rows `rows` of one file. */
  function LinkFindingsOn(stem: string -> string, articles: Corpus, name: string, m: ArticleModel, rows: set<nat>): set<Finding> {
    set row, f | row in rows && row in m.links && f in TableFindingsOn(stem, articles, name, row, m.links[row], m.links[row].Keys) :: f
  }

  /** All warnings about one file. */
  function FileFindings(stem: string -> string, articles: Corpus, name: string): set<Finding>
    requires name in articles
  {
    var m := articles[name];
    BookmarkFindingsOn(stem, name, m, m.bookmarks.Keys) + LinkFindingsOn(stem, articles, name, m, m.links.Keys)
  }

  /** The warnings about the files `files`. */
  function FindingsOn(stem: string -> string, articles: Corpus, files: set<string>): set<Finding> {
    set n, f | n in files && n in articles && f in FileFindings(stem, articles, n) :: f
  }

  /** All warnings of the reference checks. */
  function AllFindings(stem: string -> string, articles: Corpus): set<Finding> {
    FindingsOn(stem, articles, articles.Keys)
  }

  // ---------------------------------------------------------------------
  // The checks, loop by loop.

  /** wikicheck.py:161-162: each bookmark of a row whose section is missing. */
  method CheckBookmarkRow(stem: string -> string, name: string, sections: map<string, nat>, row: nat, marks: seq<string>)
    returns (found: set<Finding>)
    ensures found == RowBookmarkFindings(stem, name, sections, row, marks)
  {
    var article := stem(name);
    found := {};
    var k := 0;
    while k < |marks|
      invariant k <= |marks|
      invariant found == RowBookmarkFindings(stem, name, sections, row, marks[..k])
    {
      var section := marks[k];
      if section !in sections {
        found := found + {Finding(MissingSection, name, row + 1, Target(Some(article), Some(section)))};
      }
      RowBookmarkFindingsNext(stem, name, sections, row, marks, k);
      k := k + 1;
    }
    assert marks[..k] == marks;
  }

  lemma RowBookmarkFindingsNext(stem: string -> string, name: string, sections: map<string, nat>, row: nat, marks: seq<string>, k: nat)
    requires k < |marks|
    ensures RowBookmarkFindings(stem, name, sections, row, marks[..k + 1]) ==
            RowBookmarkFindings(stem, name, sections, row, marks[..k]) +
            (if marks[k] in sections then {} else {Finding(MissingSection, name, row + 1, Target(Some(stem(name)), Some(marks[k])))})
  {
    var before := marks[..k];
    var after := marks[..k + 1];
    assert forall i :: 0 <= i < k ==> after[i] == before[i];
    assert after[k] == marks[k];
  }

  /** wikicheck.py:160-174: the bookmark checks of one file. */
  method CheckBookmarks(stem: string -> string, name: string, m: ArticleModel) returns (found: set<Finding>)
    ensures found == BookmarkFindingsOn(stem, name, m, m.bookmarks.Keys)
  {
    found := {};
    var todo := m.bookmarks.Keys;
    while todo != {}
      invariant todo <= m.bookmarks.Keys
      invariant found == BookmarkFindingsOn(stem, name, m, m.bookmarks.Keys - todo)
      decreases |todo|
    {
      var row :| row in todo;
      var more := CheckBookmarkRow(stem, name, m.sections, row, m.bookmarks[row]);
      BookmarkFindingsOnNext(stem, name, m, m.bookmarks.Keys - todo, row);
      found := found + more;
      assert m.bookmarks.Keys - (todo - {row}) == (m.bookmarks.Keys - todo) + {row};
      todo := todo - {row};
    }
  }

  lemma BookmarkFindingsOnNext(stem: string -> string, name: string, m: ArticleModel, rows: set<nat>, row: nat)
    requires row in m.bookmarks
    ensures BookmarkFindingsOn(stem, name, m, rows + {row}) ==
            BookmarkFindingsOn(stem, name, m, rows) + RowBookmarkFindings(stem, name, m.sections, row, m.bookmarks[row])
  {
  }

  /**
   * wikicheck.py:181-211: one requested (article, section) entry, checked
   * against every file with the `found` flag.
   */
  method CheckEntry(stem: string -> string, articles: Corpus, name: string, row: nat, article: Option<string>, section: Option<string>)
    returns (found: set<Finding>)
    ensures found == EntryFindings(stem, articles, name, row, article, section)
  {
    var target := Target(article, section);
    var articleFound, missing := SearchArticles(stem, articles, article, section);
    found := {};
    if missing {
      found := found + {Finding(MissingSection, name, row + 1, target)};
    }
    if !articleFound {
      found := found + {Finding(MissingArticle, name, row + 1, target)};
    }
  }

  /**
   * wikicheck.py:182-187: the `found` flag of the search over all files, and
   * whether some file with that stem lacks the section.
   */
  method SearchArticles(stem: string -> string, articles: Corpus, article: Option<string>, section: Option<string>)
    returns (articleFound: bool, missing: bool)
    ensures articleFound <==> ArticleExists(stem, articles.Keys, article)
    ensures missing <==> SectionMissing(stem, articles, articles.Keys, article, section)
  {
    articleFound := false;
    missing := false;
    var todo := articles.Keys;
    ghost var done: set<string> := {};
    while todo != {}
      invariant todo <= articles.Keys && done == articles.Keys - todo
      invariant articleFound <==> ArticleExists(stem, done, article)
      invariant missing <==> SectionMissing(stem, articles, done, article, section)
      decreases |todo|
    {
      var n :| n in todo;
      var a := stem(n);
      SearchNext(stem, articles, done, n, article, section);
      if Some(a) == article {
        articleFound := true;
        if section.Some? && section.value !in articles[n].sections {
          missing := true;
        }
      }
      done := done + {n};
      todo := todo - {n};
    }
  }

  /** One more file visited by the search of `CheckEntry`. */
  lemma SearchNext(stem: string -> string, articles: Corpus, done: set<string>, n: string, article: Option<string>, section: Option<string>)
    requires n in articles
    ensures ArticleExists(stem, done + {n}, article) <==> ArticleExists(stem, done, article) || article == Some(stem(n))
    ensures SectionMissing(stem, articles, done + {n}, article, section) <==>
            SectionMissing(stem, articles, done, article, section) ||
            (article == Some(stem(n)) && section.Some? && section.value !in articles[n].sections)
  {
  }

  /** wikicheck.py:180: the sections requested of one article on one row. */
  method CheckSections(stem: string -> string, articles: Corpus, name: string, row: nat, article: Option<string>, sections: seq<Option<string>>)
    returns (found: set<Finding>)
    ensures found == SectionsFindings(stem, articles, name, row, article, sections)
  {
    found := {};
    var k := 0;
    while k < |sections|
      invariant k <= |sections|
      invariant found == SectionsFindings(stem, articles, name, row, article, sections[..k])
    {
      var more := CheckEntry(stem, articles, name, row, article, sections[k]);
      SectionsFindingsNext(stem, articles, name, row, article, sections, k);
      found := found + more;
      k := k + 1;
    }
    assert sections[..k] == sections;
  }

  lemma SectionsFindingsNext(stem: string -> string, articles: Corpus, name: string, row: nat, article: Option<string>, sections: seq<Option<string>>, k: nat)
    requires k < |sections|
    ensures SectionsFindings(stem, articles, name, row, article, sections[..k + 1]) ==
            SectionsFindings(stem, articles, name, row, article, sections[..k]) +
            EntryFindings(stem, articles, name, row, article, sections[k])
  {
    var before := sections[..k];
    var after := sections[..k + 1];
    assert forall i :: 0 <= i < k ==> after[i] == before[i];
    assert after[k] == sections[k];
  }

  /** wikicheck.py:179: the articles one row links to. */
  method CheckTable(stem: string -> string, articles: Corpus, name: string, row: nat, table: LinkTable) returns (found: set<Finding>)
    ensures found == TableFindingsOn(stem, articles, name, row, table, table.Keys)
  {
    found := {};
    var todo := table.Keys;
    while todo != {}
      invariant todo <= table.Keys
      invariant found == TableFindingsOn(stem, articles, name, row, table, table.Keys - todo)
      decreases |todo|
    {
      var a :| a in todo;
      var more := CheckSections(stem, articles, name, row, a, table[a]);
      TableFindingsOnNext(stem, articles, name, row, table, table.Keys - todo, a);
      found := found + more;
      assert table.Keys - (todo - {a}) == (table.Keys - todo) + {a};
      todo := todo - {a};
    }
  }

  lemma TableFindingsOnNext(stem: string -> string, articles: Corpus, name: string, row: nat, table: LinkTable, keys: set<Option<string>>, a: Option<string>)
    requires a in table
    ensures TableFindingsOn(stem, articles, name, row, table, keys + {a}) ==
            TableFindingsOn(stem, articles, name, row, table, keys) + SectionsFindings(stem, articles, name, row, a, table[a])
  {
  }

  /** wikicheck.py:177-211: the wikilink checks of one file. */
  method CheckLinks(stem: string -> string, articles: Corpus, name: string, m: ArticleModel) returns (found: set<Finding>)
    ensures found == LinkFindingsOn(stem, articles, name, m, m.links.Keys)
  {
    found := {};
    var todo := m.links.Keys;
    while todo != {}
      invariant todo <= m.links.Keys
      invariant found == LinkFindingsOn(stem, articles, name, m, m.links.Keys - todo)
      decreases |todo|
    {
      var row :| row in todo;
      var more := CheckTable(stem, articles, name, row, m.links[row]);
      LinkFindingsOnNext(stem, articles, name, m, m.links.Keys - todo, row);
      found := found + more;
      assert m.links.Keys - (todo - {row}) == (m.links.Keys - todo) + {row};
      todo := todo - {row};
    }
  }

  lemma LinkFindingsOnNext(stem: string -> string, articles: Corpus, name: string, m: ArticleModel, rows: set<nat>, row: nat)
    requires row in m.links
    ensures LinkFindingsOn(stem, articles, name, m, rows + {row}) ==
            LinkFindingsOn(stem, articles, name, m, rows) + TableFindingsOn(stem, articles, name, row, m.links[row], m.links[row].Keys)
  {
  }

  /** wikicheck.py:154-211: the reference checks of every file. */
  method CheckArticles(stem: string -> string, articles: Corpus) returns (found: set<Finding>)
    ensures found == AllFindings(stem, articles)
  {
    found := {};
    var todo := articles.Keys;
    while todo != {}
      invariant todo <= articles.Keys
      invariant found == FindingsOn(stem, articles, articles.Keys - todo)
      decreases |todo|
    {
      var name :| name in todo;
      var m := articles[name];
      var marks := CheckBookmarks(stem, name, m);
      var links := CheckLinks(stem, articles, name, m);
      FindingsOnNext(stem, articles, articles.Keys - todo, name);
      found := found + (marks + links);
      assert articles.Keys - (todo - {name}) == (articles.Keys - todo) + {name};
      todo := todo - {name};
    }
    assert articles.Keys - todo == articles.Keys;
  }

  lemma FindingsOnNext(stem: string -> string, articles: Corpus, files: set<string>, name: string)
    requires name in articles
    ensures FindingsOn(stem, articles, files + {name}) == FindingsOn(stem, articles, files) + FileFindings(stem, articles, name)
  {
  }

  // ---------------------------------------------------------------------
  // What a warning means.

  /** Row `row` of a file bookmarks the section of `t` in its own article, which lacks it. */
  predicate BookmarkMiss(stem: string -> string, m: ArticleModel, name: string, row: nat, t: Target) {
    row in m.bookmarks && t.article == Some(stem(name)) && t.section.Some? &&
    t.section.value in m.bookmarks[row] && t.section.value !in m.sections
  }

  /** Row `row` of a file requests section `t.section` of article `t.article`. */
  predicate LinkRequested(m: ArticleModel, row: nat, t: Target) {
    row in m.links && t.article in m.links[row] && t.section in m.links[row][t.article]
  }

  /** The link entry `t` draws a warning of kind `kind`. */
  predicate EntryWarns(stem: string -> string, articles: Corpus, kind: Kind, t: Target) {
    match kind
    case MissingArticle => !ArticleExists(stem, articles.Keys, t.article)
    case MissingSection => SectionMissing(stem, articles, articles.Keys, t.article, t.section)
  }

  /**
   * When the reference checks warn: a bookmark to a section its own file
   * lacks, a wikilink to an article no file has, or a wikilink to a section
   * the article lacks; each on the line of the link.
   */
  predicate Warned(stem: string -> string, articles: Corpus, f: Finding) {
    f.file in articles && f.line >= 1 &&
    var m := articles[f.file];
    var row := f.line - 1;
    (f.kind == MissingSection && BookmarkMiss(stem, m, f.file, row, f.target)) ||
    (LinkRequested(m, row, f.target) && EntryWarns(stem, articles, f.kind, f.target))
  }

  lemma RowBookmarkFindingsIff(stem: string -> string, name: string, sections: map<string, nat>, row: nat, marks: seq<string>, f: Finding)
    ensures f in RowBookmarkFindings(stem, name, sections, row, marks) <==>
            f.kind == MissingSection && f.file == name && f.line == row + 1 &&
            f.target.article == Some(stem(name)) && f.target.section.Some? &&
            f.target.section.value in marks && f.target.section.value !in sections
  {
    if f.kind == MissingSection && f.file == name && f.line == row + 1 &&
       f.target.article == Some(stem(name)) && f.target.section.Some? &&
       f.target.section.value in marks && f.target.section.value !in sections {
      var i :| 0 <= i < |marks| && marks[i] == f.target.section.value;
      assert f == Finding(MissingSection, name, row + 1, Target(Some(stem(name)), Some(marks[i])));
    }
  }

  /** The bookmark warnings of a file are exactly its missing bookmarks. */
  lemma BookmarkFindingsIff(stem: string -> string, name: string, m: ArticleModel, f: Finding)
    ensures f in BookmarkFindingsOn(stem, name, m, m.bookmarks.Keys) <==>
            f.kind == MissingSection && f.file == name && f.line >= 1 && BookmarkMiss(stem, m, name, f.line - 1, f.target)
  {
    if f in BookmarkFindingsOn(stem, name, m, m.bookmarks.Keys) {
      var row :| row in m.bookmarks && f in RowBookmarkFindings(stem, name, m.sections, row, m.bookmarks[row]);
      RowBookmarkFindingsIff(stem, name, m.sections, row, m.bookmarks[row], f);
    }
    if f.kind == MissingSection && f.file == name && f.line >= 1 && BookmarkMiss(stem, m, name, f.line - 1, f.target) {
      var row := f.line - 1;
      RowBookmarkFindingsIff(stem, name, m.sections, row, m.bookmarks[row], f);
    }
  }

  lemma EntryFindingsIff(stem: string -> string, articles: Corpus, name: string, row: nat, article: Option<string>, section: Option<string>, f: Finding)
    ensures f in EntryFindings(stem, articles, name, row, article, section) <==>
            f.file == name && f.line == row + 1 && f.target == Target(article, section) &&
            EntryWarns(stem, articles, f.kind, f.target)
  {
  }

  lemma SectionsFindingsIff(stem: string -> string, articles: Corpus, name: string, row: nat, article: Option<string>, sections: seq<Option<string>>, f: Finding)
    ensures f in SectionsFindings(stem, articles, name, row, article, sections) <==>
            f.file == name && f.line == row + 1 && f.target.article == article && f.target.section in sections &&
            EntryWarns(stem, articles, f.kind, f.target)
  {
    if f in SectionsFindings(stem, articles, name, row, article, sections) {
      var i :| 0 <= i < |sections| && f in EntryFindings(stem, articles, name, row, article, sections[i]);
      EntryFindingsIff(stem, articles, name, row, article, sections[i], f);
    }
    if f.file == name && f.line == row + 1 && f.target.article == article && f.target.section in sections &&
       EntryWarns(stem, articles, f.kind, f.target) {
      var i :| 0 <= i < |sections| && sections[i] == f.target.section;
      EntryFindingsIff(stem, articles, name, row, article, sections[i], f);
    }
  }

  lemma TableFindingsIff(stem: string -> string, articles: Corpus, name: string, row: nat, table: LinkTable, f: Finding)
    ensures f in TableFindingsOn(stem, articles, name, row, table, table.Keys) <==>
            f.file == name && f.line == row + 1 && f.target.article in table && f.target.section in table[f.target.article] &&
            EntryWarns(stem, articles, f.kind, f.target)
  {
    if f in TableFindingsOn(stem, articles, name, row, table, table.Keys) {
      var a :| a in table && f in SectionsFindings(stem, articles, name, row, a, table[a]);
      SectionsFindingsIff(stem, articles, name, row, a, table[a], f);
    }
    if f.file == name && f.line == row + 1 && f.target.article in table && f.target.section in table[f.target.article] &&
       EntryWarns(stem, articles, f.kind, f.target) {
      SectionsFindingsIff(stem, articles, name, row, f.target.article, table[f.target.article], f);
    }
  }

  /** The wikilink warnings of a file are exactly its entries that draw one. */
  lemma LinkFindingsIff(stem: string -> string, articles: Corpus, name: string, m: ArticleModel, f: Finding)
    ensures f in LinkFindingsOn(stem, articles, name, m, m.links.Keys) <==>
            f.file == name && f.line >= 1 && LinkRequested(m, f.line - 1, f.target) && EntryWarns(stem, articles, f.kind, f.target)
  {
    if f in LinkFindingsOn(stem, articles, name, m, m.links.Keys) {
      var row :| row in m.links && f in TableFindingsOn(stem, articles, name, row, m.links[row], m.links[row].Keys);
      TableFindingsIff(stem, articles, name, row, m.links[row], f);
    }
    if f.file == name && f.line >= 1 && LinkRequested(m, f.line - 1, f.target) && EntryWarns(stem, articles, f.kind, f.target) {
      var row := f.line - 1;
      TableFindingsIff(stem, articles, name, row, m.links[row], f);
    }
  }

  lemma FileFindingsIff(stem: string -> string, articles: Corpus, name: string, f: Finding)
    requires name in articles
    ensures f in FileFindings(stem, articles, name) <==> f.file == name && Warned(stem, articles, f)
  {
    BookmarkFindingsIff(stem, name, articles[name], f);
    LinkFindingsIff(stem, articles, name, articles[name], f);
  }

  /**
   * The reference checks report exactly the warnings `Warned` describes:
   * nothing is missed and nothing is reported without cause.
   */
  lemma AllFindingsExact(stem: string -> string, articles: Corpus, f: Finding)
    ensures f in AllFindings(stem, articles) <==> Warned(stem, articles, f)
  {
    if f in AllFindings(stem, articles) {
      var n :| n in articles && f in FileFindings(stem, articles, n);
      FileFindingsIff(stem, articles, n, f);
    }
    if Warned(stem, articles, f) {
      FileFindingsIff(stem, articles, f.file, f);
    }
  }

  /** A wikilink with no article names no file, so it is always reported missing. */
  lemma NoArticleAlwaysMissing(stem: string -> string, articles: Corpus, name: string, row: nat, section: Option<string>)
    requires name in articles && LinkRequested(articles[name], row, Target(None, section))
    ensures Finding(MissingArticle, name, row + 1, Target(None, section)) in AllFindings(stem, articles)
  {
    AllFindingsExact(stem, articles, Finding(MissingArticle, name, row + 1, Target(None, section)));
  }

  /**
   * A bookmark to a section its own file lacks is reported on its line,
   * with the file's stem as the target article.
   */
  lemma BookmarkWarned(stem: string -> string, articles: Corpus, name: string, row: nat, section: string)
    requires name in articles && row in articles[name].bookmarks
    requires section in articles[name].bookmarks[row] && section !in articles[name].sections
    ensures Finding(MissingSection, name, row + 1, Target(Some(stem(name)), Some(section))) in AllFindings(stem, articles)
  {
    AllFindingsExact(stem, articles, Finding(MissingSection, name, row + 1, Target(Some(stem(name)), Some(section))));
  }

  /**
   * A requested (article, section) entry is reported as a missing article
   * exactly when no file's stem is the article; the target carries the
   * section, so there is one warning per requested section.
   */
  lemma MissingArticleIff(stem: string -> string, articles: Corpus, name: string, row: nat, t: Target)
    requires name in articles && LinkRequested(articles[name], row, t)
    ensures Finding(MissingArticle, name, row + 1, t) in AllFindings(stem, articles) <==>
            forall n :: n in articles ==> t.article != Some(stem(n))
  {
    AllFindingsExact(stem, articles, Finding(MissingArticle, name, row + 1, t));
  }

  /**
   * A requested entry whose article is the stem of file `n` is reported as a
   * missing section when it names a section `n` lacks.
   */
  lemma LinkSectionWarned(stem: string -> string, articles: Corpus, name: string, row: nat, t: Target, n: string)
    requires name in articles && LinkRequested(articles[name], row, t)
    requires n in articles && t.article == Some(stem(n))
    requires t.section.Some? && t.section.value !in articles[n].sections
    ensures Finding(MissingSection, name, row + 1, t) in AllFindings(stem, articles)
  {
    AllFindingsExact(stem, articles, Finding(MissingSection, name, row + 1, t));
  }

  /**
   * A requested entry whose article exists and which names no section, or
   * one every file with that stem has, draws no warning at all.
   */
  lemma FoundEntryQuiet(stem: string -> string, articles: Corpus, name: string, row: nat, t: Target, n: string)
    requires name in articles && LinkRequested(articles[name], row, t)
    requires n in articles && t.article == Some(stem(n))
    requires forall n' :: n' in articles && t.article == Some(stem(n')) && t.section.Some? ==> t.section.value in articles[n'].sections
    requires !BookmarkMiss(stem, articles[name], name, row, t)
    ensures Finding(MissingArticle, name, row + 1, t) !in AllFindings(stem, articles)
    ensures Finding(MissingSection, name, row + 1, t) !in AllFindings(stem, articles)
  {
    AllFindingsExact(stem, articles, Finding(MissingArticle, name, row + 1, t));
    AllFindingsExact(stem, articles, Finding(MissingSection, name, row + 1, t));
  }

  // ---------------------------------------------------------------------
  // The whole program.

  /** How a run ends: stopped by the gate with its warnings, or the reference warnings. */
  datatype Outcome = NonUnique(collisions: seq<Collision>) | Checked(findings: set<Finding>)

  /** The `articles` dictionary of wikicheck.py:89-151, each file read by `read`. */
  function CorpusOf(names: seq<string>, read: string -> seq<string>, skip: string -> bool): Corpus {
    map n | n in names :: ModelOf(read(n), skip)
  }

  /**
   * wikicheck.py:56-211 on the Markdown paths `names`, each file's lines
   * given by `read` and the scheme filter by `skip`: the gate, then the
   * extraction of every file, then the reference checks.
   */
  method CheckWiki(names: seq<string>, read: string -> seq<string>, skip: string -> bool) returns (outcome: Outcome)
    ensures outcome.NonUnique? <==> !StemsDistinct(Stem, names)
    ensures outcome.NonUnique? ==> outcome.collisions == CollisionsOf(Stem, names, names) && outcome.collisions != []
    ensures outcome.Checked? ==> outcome.findings == AllFindings(Stem, CorpusOf(names, read, skip))
  {
    var allUnique, collisions := UniquenessGate(Stem, names);
    if !allUnique {
      CollisionsEmptyIffDistinct(Stem, names);
      return NonUnique(collisions);
    }
    var articles: Corpus := map[];
    var i := 0;
    while i < |names|
      invariant i <= |names|
      invariant articles == CorpusOf(names[..i], read, skip)
    {
      var name := names[i];
      var model := Extract(read(name), skip);
      CorpusOfNext(names, read, skip, i);
      articles := articles[name := model];
      i := i + 1;
    }
    assert names[..i] == names;
    var findings := CheckArticles(Stem, articles);
    outcome := Checked(findings);
  }

  lemma CorpusOfNext(names: seq<string>, read: string -> seq<string>, skip: string -> bool, i: nat)
    requires i < |names|
    ensures CorpusOf(names[..i + 1], read, skip) == CorpusOf(names[..i], read, skip)[names[i] := ModelOf(read(names[i]), skip)]
  {
    assert names[..i + 1] == names[..i] + [names[i]];
  }

  /**
   * With the scheme filter as written (wikicheck.py:124-126) every warning
   * is a bookmark's missing section: no wikilink is ever checked.
   */
  lemma AsWrittenOnlyBookmarks(stem: string -> string, names: seq<string>, read: string -> seq<string>, f: Finding)
    requires f in AllFindings(stem, CorpusOf(names, read, SkipAsWritten))
    ensures var articles := CorpusOf(names, read, SkipAsWritten);
            f.kind == MissingSection && f.file in names && f.line >= 1 &&
            BookmarkMiss(stem, articles[f.file], f.file, f.line - 1, f.target)
  {
    var articles := CorpusOf(names, read, SkipAsWritten);
    AllFindingsExact(stem, articles, f);
    AsWrittenCorpusNoLinks(names, read, f.file);
    WarnedWithoutLinks(stem, articles, f);
  }

  /** In a file without wikilinks, only a bookmark can be warned about. */
  lemma WarnedWithoutLinks(stem: string -> string, articles: Corpus, f: Finding)
    requires Warned(stem, articles, f) && articles[f.file].links == map[]
    ensures f.kind == MissingSection && BookmarkMiss(stem, articles[f.file], f.file, f.line - 1, f.target)
  {
  }

  /** With the filter as written, no file's record holds a wikilink. */
  lemma AsWrittenCorpusNoLinks(names: seq<string>, read: string -> seq<string>, name: string)
    requires name in CorpusOf(names, read, SkipAsWritten)
    ensures name in names && CorpusOf(names, read, SkipAsWritten)[name].links == map[]
  {
    AsWrittenLinksEmpty(ScanLines(read(name)));
  }

  /**
   * A wikilink without a scheme to an article no file has: with the filter
   * as written it draws no warning.
   */
  lemma AsWrittenMissesArticle(stem: string -> string, names: seq<string>, read: string -> seq<string>, name: string, r: nat, i: nat)
    requires name in names && r < |read(name)| && i < |LinkTargets(read(name)[r])|
    ensures var req := SplitTarget(LinkTargets(read(name)[r])[i]);
            Finding(MissingArticle, name, r + 1, Target(req.article, req.section)) !in
              AllFindings(stem, CorpusOf(names, read, SkipAsWritten))
  {
    var req := SplitTarget(LinkTargets(read(name)[r])[i]);
    var f := Finding(MissingArticle, name, r + 1, Target(req.article, req.section));
    if f in AllFindings(stem, CorpusOf(names, read, SkipAsWritten)) {
      AsWrittenOnlyBookmarks(stem, names, read, f);
    }
  }

  /**
   * With the intended filter, a wikilink without a scheme to an article no
   * file has is reported as a missing article on its line.
   */
  lemma IntendedReportsArticle(stem: string -> string, names: seq<string>, read: string -> seq<string>, scheme: string -> string,
                               name: string, r: nat, i: nat)
    requires name in names && r < |read(name)| && i < |LinkTargets(read(name)[r])|
    requires scheme(LinkTargets(read(name)[r])[i]) == ""
    requires forall n :: n in names ==> SplitTarget(LinkTargets(read(name)[r])[i]).article != Some(stem(n))
    ensures var req := SplitTarget(LinkTargets(read(name)[r])[i]);
            Finding(MissingArticle, name, r + 1, Target(req.article, req.section)) in
              AllFindings(stem, CorpusOf(names, read, SkipIntended(scheme)))
  {
    var skip := SkipIntended(scheme);
    var req := SplitTarget(LinkTargets(read(name)[r])[i]);
    var t := Target(req.article, req.section);
    CorpusRecordsKeptLink(names, read, skip, name, r, i);
    CorpusLacksArticle(stem, names, read, skip, req.article);
    MissingArticleWarned(stem, CorpusOf(names, read, skip), name, r, t);
  }

  /** The record of a file in the corpus holds every wikilink the filter keeps. */
  lemma CorpusRecordsKeptLink(names: seq<string>, read: string -> seq<string>, skip: string -> bool, name: string, r: nat, i: nat)
    requires name in names && r < |read(name)| && i < |LinkTargets(read(name)[r])|
    requires !skip(LinkTargets(read(name)[r])[i])
    ensures var req := SplitTarget(LinkTargets(read(name)[r])[i]);
            name in CorpusOf(names, read, skip) &&
            LinkRequested(CorpusOf(names, read, skip)[name], r, Target(req.article, req.section))
  {
    KeptLinkInModel(read(name), skip, r, i);
  }

  /** An article no path has as its stem is no file of the corpus. */
  lemma CorpusLacksArticle(stem: string -> string, names: seq<string>, read: string -> seq<string>, skip: string -> bool, article: Option<string>)
    requires forall n :: n in names ==> article != Some(stem(n))
    ensures !ArticleExists(stem, CorpusOf(names, read, skip).Keys, article)
  {
  }

  /** A requested article that no file has is reported missing. */
  lemma MissingArticleWarned(stem: string -> string, articles: Corpus, name: string, row: nat, t: Target)
    requires name in articles && LinkRequested(articles[name], row, t)
    requires !ArticleExists(stem, articles.Keys, t.article)
    ensures Finding(MissingArticle, name, row + 1, t) in AllFindings(stem, articles)
  {
    AllFindingsExact(stem, articles, Finding(MissingArticle, name, row + 1, t));
  }
}
