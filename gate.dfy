/**
 * The uniqueness gate of wikicheck.py (lines 60-86): every Markdown file's
 * article name (its stem) must differ from every other file's. Each file
 * that shares its stem with another path reports the first such path; any
 * report stops the program before extraction.
 */
module Gate {
  import opened Wrappers
  import opened Names

  /** One warning of the gate: `file` shares its stem with `partner`. */
  datatype Collision = Collision(file: string, partner: string)

  /** `n` is another path with the same stem as `name` (wikicheck.py:66-68). */
  predicate IsPartner(stem: string -> string, n: string, name: string) {
    n != name && stem(n) == stem(name)
  }

  /** The index of the first partner of `name` in `names`, if any. */
  function FirstPartner(stem: string -> string, names: seq<string>, name: string): (r: Option<nat>)
    ensures r.Some? ==> r.value < |names|
    decreases |names|
  {
    if names == [] then None
    else if IsPartner(stem, names[0], name) then Some(0)
    else
      match FirstPartner(stem, names[1..], name)
      case None => None
      case Some(j) => Some(j + 1)
  }

  /**
   * The index found is a partner with none before it; when none is found,
   * there is no partner at all.
   */
  lemma {:induction false} FirstPartnerIsFirst(stem: string -> string, names: seq<string>, name: string)
    ensures var r := FirstPartner(stem, names, name);
            && (r.Some? ==> IsPartner(stem, names[r.value], name))
            && (r.Some? ==> forall k :: 0 <= k < r.value ==> !IsPartner(stem, names[k], name))
            && (r.None? ==> forall k :: 0 <= k < |names| ==> !IsPartner(stem, names[k], name))
    decreases |names|
  {
    if names != [] && !IsPartner(stem, names[0], name) {
      FirstPartnerIsFirst(stem, names[1..], name);
      forall k | 1 <= k < |names| ensures names[k] == names[1..][k - 1] {
      }
    }
  }

  /** What one file reports: nothing, or itself with its first partner. */
  function Report(stem: string -> string, names: seq<string>, name: string): seq<Collision> {
    match FirstPartner(stem, names, name)
    case None => []
    case Some(j) => [Collision(name, names[j])]
  }

  /** The warnings of the files in `files`, in order, each checked against all of `names`. */
  function CollisionsOf(stem: string -> string, files: seq<string>, names: seq<string>): seq<Collision>
    decreases |files|
  {
    if files == [] then []
    else CollisionsOf(stem, files[..|files| - 1], names) + Report(stem, names, files[|files| - 1])
  }

  /** No two different paths share a stem. */
  predicate StemsDistinct(stem: string -> string, names: seq<string>) {
    forall i, j :: 0 <= i < |names| && 0 <= j < |names| && names[i] != names[j] ==>
      stem(names[i]) != stem(names[j])
  }

  /**
   * wikicheck.py:60-86: the gate's flag and its warnings, in the order of
   * `names`. The program stops when the flag is false.
   */
  method UniquenessGate(stem: string -> string, names: seq<string>) returns (allUnique: bool, collisions: seq<Collision>)
    ensures allUnique <==> StemsDistinct(stem, names)
    ensures collisions == CollisionsOf(stem, names, names)
  {
    allUnique := true;
    collisions := [];
    var i := 0;
    while i < |names|
      invariant i <= |names|
      invariant collisions == CollisionsOf(stem, names[..i], names)
      invariant allUnique <==> forall k :: 0 <= k < i ==> FirstPartner(stem, names, names[k]).None?
    {
      var name := names[i];
      var unique, partner := FindPartner(stem, names, name);
      if !unique {
        allUnique := false;
        collisions := collisions + [Collision(name, partner)];
      }
      CollisionsOfNext(stem, names, i);
      i := i + 1;
    }
    assert names[..|names|] == names;
    NoPartnerIffDistinct(stem, names);
  }

  /**
   * The inner loop of the gate (wikicheck.py:65-72): scan all paths for one
   * other than `name` with the same stem, stopping at the first.
   */
  method FindPartner(stem: string -> string, names: seq<string>, name: string) returns (unique: bool, partner: string)
    ensures unique <==> FirstPartner(stem, names, name).None?
    ensures !unique ==> partner == names[FirstPartner(stem, names, name).value]
  {
    var article := stem(name);
    unique := true;
    partner := name;
    var j := 0;
    while j < |names|
      invariant j <= |names|
      invariant forall k :: 0 <= k < j ==> !IsPartner(stem, names[k], name)
      invariant unique
    {
      var n := names[j];
      if n != name {
        var a := stem(n);
        if a == article {
          unique := false;
          partner := n;
          break;
        }
      }
      assert !IsPartner(stem, names[j], name);
      j := j + 1;
    }
    if unique {
      FirstPartnerIsFirst(stem, names, name);
    } else {
      FirstPartnerAt(stem, names, name, j);
    }
  }

  /** One more file adds its own report to the warnings. */
  lemma CollisionsOfNext(stem: string -> string, names: seq<string>, i: nat)
    requires i < |names|
    ensures CollisionsOf(stem, names[..i + 1], names) == CollisionsOf(stem, names[..i], names) + Report(stem, names, names[i])
  {
    assert names[..i + 1][..i] == names[..i];
  }

  /** A partner with none before it is the first partner. */
  lemma {:induction false} FirstPartnerAt(stem: string -> string, names: seq<string>, name: string, j: nat)
    requires j < |names| && IsPartner(stem, names[j], name)
    requires forall k :: 0 <= k < j ==> !IsPartner(stem, names[k], name)
    ensures FirstPartner(stem, names, name) == Some(j)
    decreases j
  {
    if j > 0 {
      assert !IsPartner(stem, names[0], name);
      forall k | 0 <= k < j - 1 ensures !IsPartner(stem, names[1..][k], name) {
        assert names[1..][k] == names[k + 1];
      }
      FirstPartnerAt(stem, names[1..], name, j - 1);
    }
  }

  /** Every file lacks a partner exactly when the stems are distinct. */
  lemma NoPartnerIffDistinct(stem: string -> string, names: seq<string>)
    ensures (forall k :: 0 <= k < |names| ==> FirstPartner(stem, names, names[k]).None?) <==> StemsDistinct(stem, names)
  {
    if !StemsDistinct(stem, names) {
      var i, j :| 0 <= i < |names| && 0 <= j < |names| && names[i] != names[j] && stem(names[i]) == stem(names[j]);
      assert IsPartner(stem, names[j], names[i]);
      FirstPartnerIsFirst(stem, names, names[i]);
    } else {
      forall k | 0 <= k < |names| ensures FirstPartner(stem, names, names[k]).None? {
        FirstPartnerIsFirst(stem, names, names[k]);
      }
    }
  }

  /**
   * A warning is reported for exactly the files that have a partner, each
   * naming its first partner.
   */
  lemma {:induction false} CollisionsOfMembers(stem: string -> string, files: seq<string>, names: seq<string>, c: Collision)
    ensures c in CollisionsOf(stem, files, names) <==>
              exists i :: 0 <= i < |files| && c.file == files[i] && FirstPartner(stem, names, files[i]).Some? &&
                          c.partner == names[FirstPartner(stem, names, files[i]).value]
    decreases |files|
  {
    if files != [] {
      var front := files[..|files| - 1];
      CollisionsOfMembers(stem, front, names, c);
      if exists i :: 0 <= i < |front| && c.file == front[i] && FirstPartner(stem, names, front[i]).Some? &&
                     c.partner == names[FirstPartner(stem, names, front[i]).value] {
        var i :| 0 <= i < |front| && c.file == front[i] && FirstPartner(stem, names, front[i]).Some? &&
                 c.partner == names[FirstPartner(stem, names, front[i]).value];
        assert files[i] == front[i];
      }
      if exists i :: 0 <= i < |files| && c.file == files[i] && FirstPartner(stem, names, files[i]).Some? &&
                     c.partner == names[FirstPartner(stem, names, files[i]).value] {
        var i :| 0 <= i < |files| && c.file == files[i] && FirstPartner(stem, names, files[i]).Some? &&
                 c.partner == names[FirstPartner(stem, names, files[i]).value];
        if i < |front| {
          assert front[i] == files[i];
        }
      }
    }
  }

  /** The gate reports nothing exactly when the stems are distinct. */
  lemma CollisionsEmptyIffDistinct(stem: string -> string, names: seq<string>)
    ensures CollisionsOf(stem, names, names) == [] <==> StemsDistinct(stem, names)
  {
    NoPartnerIffDistinct(stem, names);
    if !StemsDistinct(stem, names) {
      var k :| 0 <= k < |names| && FirstPartner(stem, names, names[k]).Some?;
      var c := Collision(names[k], names[FirstPartner(stem, names, names[k]).value]);
      CollisionsOfMembers(stem, names, names, c);
    } else if CollisionsOf(stem, names, names) != [] {
      var c := CollisionsOf(stem, names, names)[0];
      CollisionsOfMembers(stem, names, names, c);
    }
  }

  /**
   * When exactly two paths share a stem, each reports the other: the pair
   * is warned about from both sides.
   */
  lemma PairReportedBothSides(stem: string -> string, names: seq<string>, f: string, p: string)
    requires Collision(f, p) in CollisionsOf(stem, names, names)
    requires forall k :: 0 <= k < |names| && stem(names[k]) == stem(f) ==> names[k] == f || names[k] == p
    ensures Collision(p, f) in CollisionsOf(stem, names, names)
  {
    CollisionsOfMembers(stem, names, names, Collision(f, p));
    var i :| 0 <= i < |names| && f == names[i] && FirstPartner(stem, names, names[i]).Some? &&
             p == names[FirstPartner(stem, names, names[i]).value];
    var j := FirstPartner(stem, names, f).value;
    FirstPartnerIsFirst(stem, names, f);
    assert IsPartner(stem, names[i], p);
    FirstPartnerIsFirst(stem, names, p);
    var q := FirstPartner(stem, names, p).value;
    assert names[q] == f;
    var ip := j;
    assert names[ip] == p;
    CollisionsOfMembers(stem, names, names, Collision(p, f));
  }
}
