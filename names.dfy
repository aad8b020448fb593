/**
 * Name normalisation in wikicheck.py: the chain of string calls that turns a
 * heading into a section id (`section_name_to_id`), the expression that turns
 * a file path into its article name (the stem), and `str` on a positive
 * integer, used to build the `-1`, `-2`, ... suffixes.
 *
 * Python 2 strings are byte strings; a `char` here stands for one byte.
 */
module Names {

  /** The characters Python 2's `str.strip()` removes: space, \t, \n, \v, \f, \r. */
  predicate IsSpace(c: char) {
    c == ' ' || 9 <= c as int <= 13
  }

  predicate IsUpper(c: char) {
    'A' <= c <= 'Z'
  }

  /** `str.lower()` on one byte: only ASCII letters change. */
  function LowerChar(c: char): char {
    if IsUpper(c) then (c as int + 32) as char else c
  }

  /** `str.lstrip()`: drops the whitespace run at the start. */
  function StripLeft(s: string): (r: string)
    ensures |r| <= |s| && r == s[|s| - |r|..]
    ensures forall i :: 0 <= i < |s| - |r| ==> IsSpace(s[i])
    ensures r != [] ==> !IsSpace(r[0])
    decreases |s|
  {
    if s != [] && IsSpace(s[0]) then StripLeft(s[1..]) else s
  }

  /** `str.rstrip()`: drops the whitespace run at the end. */
  function StripRight(s: string): (r: string)
    ensures |r| <= |s| && r == s[..|r|]
    ensures forall i :: |r| <= i < |s| ==> IsSpace(s[i])
    ensures r != [] ==> !IsSpace(r[|r| - 1])
    decreases |s|
  {
    if s != [] && IsSpace(s[|s| - 1]) then StripRight(s[..|s| - 1]) else s
  }

  /** `str.strip()`: drops the whitespace run at either end. */
  function Strip(s: string): string {
    StripRight(StripLeft(s))
  }

  /** `str.lower()`. */
  function Lower(s: string): (r: string)
    ensures |r| == |s|
  {
    seq(|s|, i requires 0 <= i < |s| => LowerChar(s[i]))
  }

  /** `s.replace(a, b)` for one-character `a` and `b`. */
  function ReplaceChar(s: string, a: char, b: char): (r: string)
    ensures |r| == |s|
  {
    seq(|s|, i requires 0 <= i < |s| => if s[i] == a then b else s[i])
  }

  /** `s.replace(c, '')`: every occurrence of `c` removed, the rest kept in order. */
  function DeleteChar(s: string, c: char): (r: string)
    ensures |r| <= |s|
    ensures forall x :: x in r <==> x in s && x != c
    ensures forall x :: x != c ==> multiset(r)[x] == multiset(s)[x]
    decreases |s|
  {
    if s == [] then []
    else
      assert s == [s[0]] + s[1..];
      (if s[0] == c then [] else [s[0]]) + DeleteChar(s[1..], c)
  }

  /**
   * `replace(c, '')` works character by character and keeps order: it
   * distributes over concatenation, and on one character it drops `c` and
   * keeps anything else. These two facts determine it completely.
   */
  lemma {:induction false} DeleteCharConcat(a: string, b: string, c: char)
    ensures DeleteChar(a + b, c) == DeleteChar(a, c) + DeleteChar(b, c)
    ensures DeleteChar([c], c) == [] && forall x :: x != c ==> DeleteChar([x], c) == [x]
    decreases |a|
  {
    if a == [] {
      assert a + b == b;
    } else {
      assert (a + b)[1..] == a[1..] + b;
      DeleteCharConcat(a[1..], b, c);
    }
  }

  /** `section_name_to_id`: strip, lower, then the five replacements in their source order. */
  function SectionNameToId(name: string): string {
    var s0 := Lower(Strip(name));
    var s1 := ReplaceChar(s0, ' ', '-');
    var s2 := DeleteChar(s1, '/');
    var s3 := ReplaceChar(s2, '+', '-');
    var s4 := ReplaceChar(s3, '<', '-');
    var s5 := ReplaceChar(s4, '>', '-');
    DeleteChar(s5, '.')
  }

  /** A character that may appear in a section id. */
  predicate IdChar(c: char) {
    !IsUpper(c) && c != ' ' && c != '/' && c != '+' && c != '<' && c != '>' && c != '.'
  }

  lemma StripChars(s: string)
    ensures |Strip(s)| <= |s|
    ensures forall x :: x in Strip(s) ==> x in s
  {
    var l := StripLeft(s);
    assert forall x :: x in l ==> x in s by {
      forall x | x in l ensures x in s {
        var i :| 0 <= i < |l| && l[i] == x;
        assert s[|s| - |l| + i] == x;
      }
    }
    var r := StripRight(l);
    assert forall x :: x in r ==> x in l by {
      forall x | x in r ensures x in l {
        var i :| 0 <= i < |r| && r[i] == x;
        assert l[i] == x;
      }
    }
  }

  /**
   * The id never contains an upper-case ASCII letter or any of ' ', '/', '+',
   * '<', '>', '.', is never longer than the heading text, and holds no
   * whitespace at all when the only whitespace in the text is the space.
   */
  lemma SectionNameToIdShape(name: string)
    ensures |SectionNameToId(name)| <= |name|
    ensures forall c :: c in SectionNameToId(name) ==> IdChar(c)
    ensures (forall c :: c in name && IsSpace(c) ==> c == ' ') ==>
              forall c :: c in SectionNameToId(name) ==> !IsSpace(c)
  {
    StripChars(name);
    var s0 := Lower(Strip(name));
    LowerChars(Strip(name));
    var s1 := ReplaceChar(s0, ' ', '-');
    ReplaceChars(s0, ' ', '-');
    var s2 := DeleteChar(s1, '/');
    var s3 := ReplaceChar(s2, '+', '-');
    ReplaceChars(s2, '+', '-');
    var s4 := ReplaceChar(s3, '<', '-');
    ReplaceChars(s3, '<', '-');
    var s5 := ReplaceChar(s4, '>', '-');
    ReplaceChars(s4, '>', '-');
    var r := DeleteChar(s5, '.');
    assert r == SectionNameToId(name);
    forall c | c in r ensures IdChar(c) && c != ' ' && (IsSpace(c) ==> c in name) {
      assert c in s5 && c != '.';
      if c != '-' {
        assert c in s4 && c != '>';
        assert c in s3 && c != '<';
        assert c in s2 && c != '+';
        assert c in s1 && c != '/';
        assert c in s0 && c != ' ';
      }
    }
  }

  /** Lower-casing leaves no upper-case letter and introduces no whitespace. */
  lemma LowerChars(s: string)
    ensures forall c :: c in Lower(s) ==> !IsUpper(c) && (IsSpace(c) ==> c in s)
  {
    forall c | c in Lower(s) ensures !IsUpper(c) && (IsSpace(c) ==> c in s) {
      var i :| 0 <= i < |s| && Lower(s)[i] == c;
      assert s[i] in s;
    }
  }

  /** After replacing `a` by `b`, every character is an old one or `b`, and none is `a`. */
  lemma ReplaceChars(s: string, a: char, b: char)
    requires a != b
    ensures forall c :: c in ReplaceChar(s, a, b) ==> (c in s || c == b) && c != a
  {
    forall c | c in ReplaceChar(s, a, b) ensures (c in s || c == b) && c != a {
      var i :| 0 <= i < |s| && ReplaceChar(s, a, b)[i] == c;
      assert s[i] in s;
    }
  }

  lemma StripLeftNoSpace(s: string)
    requires s == [] || !IsSpace(s[0])
    ensures StripLeft(s) == s
  {
  }

  lemma StripRightNoSpace(s: string)
    requires s == [] || !IsSpace(s[|s| - 1])
    ensures StripRight(s) == s
  {
  }

  lemma {:induction false} DeleteAbsent(s: string, c: char)
    requires c !in s
    ensures DeleteChar(s, c) == s
    decreases |s|
  {
    if s != [] {
      DeleteAbsent(s[1..], c);
    }
  }

  lemma ReplaceAbsent(s: string, a: char, b: char)
    requires a !in s
    ensures ReplaceChar(s, a, b) == s
  {
    forall i | 0 <= i < |s| ensures ReplaceChar(s, a, b)[i] == s[i] {
      assert s[i] in s;
    }
  }

  lemma LowerNoUpper(s: string)
    requires forall i :: 0 <= i < |s| ==> !IsUpper(s[i])
    ensures Lower(s) == s
  {
  }

  /** A string already made of id characters, none of them whitespace, is its own id. */
  lemma SectionNameToIdOfId(id: string)
    requires forall i :: 0 <= i < |id| ==> IdChar(id[i]) && !IsSpace(id[i])
    ensures SectionNameToId(id) == id
  {
    StripLeftNoSpace(id);
    StripRightNoSpace(id);
    LowerNoUpper(id);
    assert forall c :: c in id ==> IdChar(c) by {
      forall c | c in id ensures IdChar(c) {
        var i :| 0 <= i < |id| && id[i] == c;
      }
    }
    ReplaceAbsent(id, ' ', '-');
    DeleteAbsent(id, '/');
    ReplaceAbsent(id, '+', '-');
    ReplaceAbsent(id, '<', '-');
    ReplaceAbsent(id, '>', '-');
    DeleteAbsent(id, '.');
  }

  /**
   * Normalising an id again leaves it as it is, provided the heading text
   * held no whitespace other than the space character.
   */
  lemma SectionNameToIdIdempotent(name: string)
    requires forall c :: c in name && IsSpace(c) ==> c == ' '
    ensures SectionNameToId(SectionNameToId(name)) == SectionNameToId(name)
  {
    var id := SectionNameToId(name);
    SectionNameToIdShape(name);
    assert forall i :: 0 <= i < |id| ==> id[i] in id;
    SectionNameToIdOfId(id);
  }

  /** The id depends on the heading text only through its stripped, lower-cased form. */
  lemma SectionNameToIdOfNormalised(a: string, b: string)
    requires Lower(Strip(a)) == Lower(Strip(b))
    ensures SectionNameToId(a) == SectionNameToId(b)
  {
  }

  // ---------------------------------------------------------------------
  // `str.split(sep)` and `sep.join(parts)` on one-character separators, and
  // the stem expression `'.'.join(name.split('/')[-1].split('.')[:-1])`.

  /** `s.split(sep)`: the pieces between separators, including empty ones. */
  function Split(s: string, sep: char): (parts: seq<string>)
    ensures |parts| >= 1
    decreases |s|
  {
    if s == [] then [""]
    else
      var rest := Split(s[1..], sep);
      if s[0] == sep then [""] + rest
      else [[s[0]] + rest[0]] + rest[1..]
  }

  /** No piece of a split holds the separator. */
  lemma {:induction false} SplitPiecesNoSep(s: string, sep: char)
    ensures forall i :: 0 <= i < |Split(s, sep)| ==> sep !in Split(s, sep)[i]
    decreases |s|
  {
    if s != [] {
      SplitPiecesNoSep(s[1..], sep);
      var rest := Split(s[1..], sep);
      if s[0] != sep {
        assert forall c :: c in [s[0]] + rest[0] ==> c == s[0] || c in rest[0];
      }
    }
  }

  /** `sep.join(parts)`. */
  function Join(sep: char, parts: seq<string>): string
    decreases |parts|
  {
    if |parts| == 0 then ""
    else if |parts| == 1 then parts[0]
    else parts[0] + [sep] + Join(sep, parts[1..])
  }

  /** Joining the pieces of a split gives back the string. */
  lemma {:induction false} JoinSplit(s: string, sep: char)
    ensures Join(sep, Split(s, sep)) == s
    decreases |s|
  {
    if s != [] {
      var rest := Split(s[1..], sep);
      JoinSplit(s[1..], sep);
      if s[0] == sep {
        assert Split(s, sep)[1..] == rest;
      } else if |rest| == 1 {
      } else {
        var parts := Split(s, sep);
        assert parts[1..] == rest[1..];
        assert Join(sep, rest) == rest[0] + [sep] + Join(sep, rest[1..]);
      }
    }
  }

  lemma {:induction false} SplitNoSep(s: string, sep: char)
    requires sep !in s
    ensures Split(s, sep) == [s]
    decreases |s|
  {
    if s != [] {
      SplitNoSep(s[1..], sep);
      assert [s[0]] + s[1..] == s;
    }
  }

  lemma {:induction false} SplitAfterPiece(a: string, sep: char, b: string)
    requires sep !in a
    ensures Split(a + [sep] + b, sep) == [a] + Split(b, sep)
    decreases |a|
  {
    if a == [] {
      assert a + [sep] + b == [sep] + b;
      assert ([sep] + b)[1..] == b;
    } else {
      SplitAfterPiece(a[1..], sep, b);
      assert (a + [sep] + b)[1..] == a[1..] + [sep] + b;
      assert [a[0]] + a[1..] == a;
    }
  }

  /** Splitting the join of separator-free pieces gives back the pieces. */
  lemma {:induction false} SplitJoin(parts: seq<string>, sep: char)
    requires |parts| >= 1
    requires forall i :: 0 <= i < |parts| ==> sep !in parts[i]
    ensures Split(Join(sep, parts), sep) == parts
    decreases |parts|
  {
    if |parts| == 1 {
      SplitNoSep(parts[0], sep);
    } else {
      SplitJoin(parts[1..], sep);
      SplitAfterPiece(parts[0], sep, Join(sep, parts[1..]));
    }
  }

  lemma {:induction false} JoinSnoc(sep: char, parts: seq<string>)
    requires |parts| >= 2
    ensures Join(sep, parts) == Join(sep, parts[..|parts| - 1]) + [sep] + parts[|parts| - 1]
    decreases |parts|
  {
    if |parts| > 2 {
      JoinSnoc(sep, parts[1..]);
      assert parts[1..][..|parts| - 2] == parts[..|parts| - 1][1..];
    }
  }

  /** The index of the last `c` in `s`, or -1 (`str.rfind`). */
  function LastIndexOf(s: string, c: char): (k: int)
    ensures -1 <= k < |s|
    ensures k >= 0 ==> s[k] == c
    ensures forall i :: k < i < |s| ==> s[i] != c
    decreases |s|
  {
    if s == [] then -1
    else if s[|s| - 1] == c then |s| - 1
    else LastIndexOf(s[..|s| - 1], c)
  }

  /**
   * The last piece of a split is what follows the last separator, and the
   * other pieces joined back are what precedes it (nothing when there is no
   * separator).
   */
  lemma {:induction false} LastIndexAfterPiece(x: string, sep: char, p: string)
    requires sep !in p
    ensures LastIndexOf(x + [sep] + p, sep) == |x|
    decreases |p|
  {
    var s := x + [sep] + p;
    if p != [] {
      var q := p[..|p| - 1];
      assert p[|p| - 1] in p;
      assert s[|s| - 1] == p[|p| - 1];
      assert s[..|s| - 1] == x + [sep] + q;
      assert forall c :: c in q ==> c in p;
      LastIndexAfterPiece(x, sep, q);
    }
  }

  lemma {:induction false} LastIndexAbsent(s: string, c: char)
    requires c !in s
    ensures LastIndexOf(s, c) == -1
    decreases |s|
  {
    if s != [] {
      assert s[|s| - 1] in s;
      assert forall d :: d in s[..|s| - 1] ==> d in s;
      LastIndexAbsent(s[..|s| - 1], c);
    }
  }

  lemma {:induction false} SplitLastPiece(s: string, sep: char)
    ensures var parts := Split(s, sep);
            var k := LastIndexOf(s, sep);
            parts[|parts| - 1] == s[k + 1..] &&
            Join(sep, parts[..|parts| - 1]) == (if k < 0 then "" else s[..k])
  {
    var parts := Split(s, sep);
    var n := |parts|;
    JoinSplit(s, sep);
    SplitPiecesNoSep(s, sep);
    if n == 1 {
      assert parts[0] == s;
      LastIndexAbsent(s, sep);
    } else {
      JoinSnoc(sep, parts);
      var x := Join(sep, parts[..n - 1]);
      var p := parts[n - 1];
      assert sep !in p;
      assert s == x + [sep] + p;
      LastIndexAfterPiece(x, sep, p);
      assert s[..|x|] == x;
      assert s[|x| + 1..] == p;
    }
  }

  /** `'.'.join(name.split('/')[-1].split('.')[:-1])`, the article name of a file path. */
  function Stem(name: string): string {
    var dirs := Split(name, '/');
    FileStem(dirs[|dirs| - 1])
  }

  /** `'.'.join(base.split('.')[:-1])`: the file name without its last '.'-suffix. */
  function FileStem(base: string): string {
    var pieces := Split(base, '.');
    Join('.', pieces[..|pieces| - 1])
  }

  /** The file name: what follows the last '/' of the path. */
  function BaseName(name: string): (r: string)
    ensures '/' !in r
  {
    name[LastIndexOf(name, '/') + 1..]
  }

  /**
   * The stem is the file name without its last '.'-suffix, and is empty when
   * the file name has no '.' at all.
   */
  lemma {:induction false} StemIsBaseNameWithoutSuffix(name: string)
    ensures var base := BaseName(name);
            var k := LastIndexOf(base, '.');
            Stem(name) == if k < 0 then "" else base[..k]
  {
    var base := BaseName(name);
    BaseNameIsLastPiece(name);
    assert Stem(name) == FileStem(base);
    FileStemIsPrefix(base);
  }

  lemma FileStemIsPrefix(base: string)
    ensures var k := LastIndexOf(base, '.');
            FileStem(base) == if k < 0 then "" else base[..k]
  {
    SplitLastPiece(base, '.');
  }

  /** The file name is the last piece of the path split on '/'. */
  lemma BaseNameIsLastPiece(name: string)
    ensures Split(name, '/')[|Split(name, '/')| - 1] == BaseName(name)
  {
    SplitLastPiece(name, '/');
  }

  // ---------------------------------------------------------------------
  // `str(n)` for a natural number.

  function DigitChar(d: nat): char
    requires d < 10
  {
    ('0' as int + d) as char
  }

  /** `str(n)`: decimal digits without leading zeros. */
  function NatToString(n: nat): (s: string)
    ensures |s| >= 1
    ensures n >= 10 ==> |s| >= 2
    decreases n
  {
    if n < 10 then [DigitChar(n)] else NatToString(n / 10) + [DigitChar(n % 10)]
  }

  /** Distinct numbers print differently. */
  lemma {:induction false} NatToStringInjective(a: nat, b: nat)
    requires NatToString(a) == NatToString(b)
    ensures a == b
    decreases a
  {
    if a >= 10 && b >= 10 {
      var sa, sb := NatToString(a), NatToString(b);
      assert sa[|sa| - 1] == sb[|sb| - 1];
      assert sa[..|sa| - 1] == NatToString(a / 10);
      assert sb[..|sb| - 1] == NatToString(b / 10);
      NatToStringInjective(a / 10, b / 10);
    }
  }
}
