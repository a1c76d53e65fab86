/**
 The skip predicate of `DatasetList` (lclsStrip2D.py:31-45).

 The constructor joins the skip patterns with "|" into one regular expression
 and `addDatasetWithSkip` searches each visited name with it. The model keeps
 the joined expression as a string and gives `re.search` its meaning for an
 expression made of literal characters and "|": the expression is cut at every
 "|" into branches, and the search succeeds when some branch occurs anywhere in
 the name (not anchored at either end).
 */
module Patterns {
  import opened Common

  // ---------------------------------------------------------------------------
  // Substring search
  // ---------------------------------------------------------------------------

  /** `p` occurs in `s` starting at index `i`. */
  predicate OccursAt(p: string, s: string, i: int)
  {
    0 <= i && i + |p| <= |s| && s[i..i + |p|] == p
  }

  /** Does the literal `p` occur anywhere in `s`? A left-to-right scan, as a
      regular-expression search does it. */
  function Occurs(p: string, s: string): (b: bool)
    ensures b <==> exists i :: OccursAt(p, s, i)
    decreases |s|
  {
    if |p| <= |s| && s[..|p|] == p then
      assert OccursAt(p, s, 0);
      true
    else if |s| == 0 then
      false
    else
      var b := Occurs(p, s[1..]);
      assert forall i :: OccursAt(p, s[1..], i) ==> OccursAt(p, s, i + 1) by {
        forall i | OccursAt(p, s[1..], i) ensures OccursAt(p, s, i + 1) {
          assert s[1..][i..i + |p|] == s[i + 1..i + 1 + |p|];
        }
      }
      assert forall i :: OccursAt(p, s, i) && i > 0 ==> OccursAt(p, s[1..], i - 1) by {
        forall i | OccursAt(p, s, i) && i > 0 ensures OccursAt(p, s[1..], i - 1) {
          assert s[1..][i - 1..i - 1 + |p|] == s[i..i + |p|];
        }
      }
      b
  }

  /** The empty string occurs in every string (at position 0). */
  lemma EmptyOccursEverywhere(s: string)
    ensures Occurs("", s)
  {
    assert OccursAt("", s, 0);
  }

  // ---------------------------------------------------------------------------
  // str.join and str.split
  // ---------------------------------------------------------------------------

  /** `sep.join(ps)` for a one-character separator. */
  function Join(ps: seq<string>, sep: char): (r: string)
    ensures |ps| == 1 ==> r == ps[0]
    decreases |ps|
  {
    if |ps| == 0 then ""
    else if |ps| == 1 then ps[0]
    else ps[0] + [sep] + Join(ps[1..], sep)
  }

  /** `s.split(sep)` for a one-character separator: always at least one
      piece, an empty piece between two adjacent separators, and `[""]` for
      the empty string. */
  function Split(s: string, sep: char): (r: seq<string>)
    ensures |r| >= 1
    ensures forall k :: 0 <= k < |r| ==> sep !in r[k]
    decreases |s|
  {
    if |s| == 0 then [""]
    else
      var rest := Split(s[1..], sep);
      if s[0] == sep then [""] + rest
      else [[s[0]] + rest[0]] + rest[1..]
  }

  /** Splitting and joining again at the same separator gives back the
      original string. */
  lemma {:induction false} JoinSplit(s: string, sep: char)
    ensures Join(Split(s, sep), sep) == s
    decreases |s|
  {
    if |s| > 0 {
      var rest := Split(s[1..], sep);
      JoinSplit(s[1..], sep);
      if s[0] == sep {
        assert Split(s, sep) == [""] + rest;
        if |rest| == 1 {
          assert Join([""] + rest, sep) == "" + [sep] + rest[0];
        } else {
          assert ([""] + rest)[1..] == rest;
        }
      } else {
        var r := Split(s, sep);
        assert r == [[s[0]] + rest[0]] + rest[1..];
        if |rest| == 1 {
          assert r == [[s[0]] + rest[0]];
        } else {
          assert r[1..] == rest[1..];
          assert Join(rest, sep) == rest[0] + [sep] + Join(rest[1..], sep);
        }
      }
    }
  }

  /** Splitting `p + sep + t` where `p` has no separator yields `p` first. */
  lemma {:induction false} SplitAfterPiece(p: string, t: string, sep: char)
    requires sep !in p
    ensures Split(p + [sep] + t, sep) == [p] + Split(t, sep)
    decreases |p|
  {
    if |p| == 0 {
      assert p + [sep] + t == [sep] + t;
      assert ([sep] + t)[1..] == t;
    } else {
      SplitAfterPiece(p[1..], t, sep);
      assert (p + [sep] + t)[1..] == p[1..] + [sep] + t;
      assert [p[0]] + p[1..] == p;
    }
  }

  /** Joining pieces that contain no separator and splitting again gives
      back the pieces. */
  lemma {:induction false} SplitJoin(ps: seq<string>, sep: char)
    requires |ps| >= 1
    requires forall k :: 0 <= k < |ps| ==> sep !in ps[k]
    ensures Split(Join(ps, sep), sep) == ps
    decreases |ps|
  {
    if |ps| == 1 {
      SplitWithoutSeparator(ps[0], sep);
    } else {
      SplitJoin(ps[1..], sep);
      SplitAfterPiece(ps[0], Join(ps[1..], sep), sep);
      assert [ps[0]] + ps[1..] == ps;
    }
  }

  /** A string without the separator splits into itself alone. */
  lemma {:induction false} SplitWithoutSeparator(s: string, sep: char)
    requires sep !in s
    ensures Split(s, sep) == [s]
    decreases |s|
  {
    if |s| > 0 {
      SplitWithoutSeparator(s[1..], sep);
      assert [s[0]] + s[1..] == s;
    }
  }

  // ---------------------------------------------------------------------------
  // The compiled skip expression
  // ---------------------------------------------------------------------------

  /** Does some branch occur in `name`? Branches are tried in order and the
      first that occurs ends the scan. */
  function AnyOccurs(branches: seq<string>, name: string): (b: bool)
    ensures b <==> exists k :: 0 <= k < |branches| && Occurs(branches[k], name)
    decreases |branches|
  {
    if |branches| == 0 then false
    else if Occurs(branches[0], name) then true
    else
      var b := AnyOccurs(branches[1..], name);
      assert forall k :: 1 <= k < |branches| ==> branches[k] == branches[1..][k - 1];
      b
  }

  /** `re.compile(regex).search(name) is not None` for an expression made of
      literal characters and "|". */
  function Search(regex: string, name: string): (b: bool)
    ensures '|' !in regex ==> (b <==> Occurs(regex, name))
  {
    if '|' !in regex then
      SplitWithoutSeparator(regex, '|');
      AnyOccurs(Split(regex, '|'), name)
    else
      AnyOccurs(Split(regex, '|'), name)
  }

  /** The expression that `DatasetList.__init__` compiles (lclsStrip2D.py:36). */
  function SkipRegex(patterns: seq<string>): (r: string)
    ensures patterns == [] ==> r == ""
    ensures |patterns| >= 1 && (forall k :: 0 <= k < |patterns| ==> '|' !in patterns[k])
            ==> Split(r, '|') == patterns
  {
    if |patterns| >= 1 && (forall k :: 0 <= k < |patterns| ==> '|' !in patterns[k]) then
      SplitJoin(patterns, '|');
      Join(patterns, '|')
    else
      Join(patterns, '|')
  }

  /** A name is skipped iff at least one pattern occurs in it, anywhere. */
  lemma SkipIffSomePatternOccurs(patterns: seq<string>, name: string)
    requires |patterns| >= 1
    requires forall k :: 0 <= k < |patterns| ==> '|' !in patterns[k]
    ensures Search(SkipRegex(patterns), name)
            <==> exists k :: 0 <= k < |patterns| && Occurs(patterns[k], name)
  {
    SplitJoin(patterns, '|');
  }

  /** An empty pattern list joins to the empty expression, which matches
      every name: every dataset is skipped. */
  lemma EmptyListSkipsEverything(name: string)
    ensures Search(SkipRegex([]), name)
  {
    assert Split("", '|') == [""];
    EmptyOccursEverywhere(name);
  }

  /** An empty pattern in the list gives the alternation an empty branch,
      which matches every name: every dataset is skipped. */
  lemma EmptyPatternSkipsEverything(patterns: seq<string>, name: string)
    requires "" in patterns
    requires forall k :: 0 <= k < |patterns| ==> '|' !in patterns[k]
    ensures Search(SkipRegex(patterns), name)
  {
    var k :| 0 <= k < |patterns| && patterns[k] == "";
    EmptyOccursEverywhere(name);
    SkipIffSomePatternOccurs(patterns, name);
  }

  /** A non-empty name list whose patterns are all non-empty and occur in no
      name skips nothing. */
  lemma NoOccurrenceKeeps(patterns: seq<string>, name: string)
    requires |patterns| >= 1
    requires forall k :: 0 <= k < |patterns| ==> '|' !in patterns[k]
    requires forall k :: 0 <= k < |patterns| ==> !Occurs(patterns[k], name)
    ensures !Search(SkipRegex(patterns), name)
  {
    SkipIffSomePatternOccurs(patterns, name);
  }

  // ---------------------------------------------------------------------------
  // The constructor's argument
  // ---------------------------------------------------------------------------

  /** What `skipList` can be: a single string, a list of strings, or None. */
  datatype SkipList = Str(s: string) | List(ps: seq<string>) | NoList

  /** The list of patterns the constructor joins (lclsStrip2D.py:33-36): a
      string becomes the one-element list holding it; None reaches
      `"|".join(None)`, which raises, so it yields no patterns. */
  function SkipPatterns(skipList: SkipList): (r: Option<seq<string>>)
    ensures r.None? <==> skipList.NoList?
    ensures skipList.Str? ==> r == Some([skipList.s])
    ensures skipList.List? ==> r == Some(skipList.ps)
  {
    match skipList
    case Str(s) => Some([s])
    case List(ps) => Some(ps)
    case NoList => None
  }

  /** A single string compiles to the same expression as the one-element
      list holding it, and to the string itself. */
  lemma StringActsAsSingletonList(s: string)
    ensures SkipPatterns(Str(s)) == SkipPatterns(List([s]))
    ensures SkipRegex(SkipPatterns(Str(s)).value) == s
  {
  }

  /** The default arguments: `DatasetList` skips "CsPad" and "Camera"
      (lclsStrip2D.py:32); `stripFile` passes "CsPad" (line 55); the command
      line passes "CsPad,Camera" split at "," (lines 98 and 116). */
  const DatasetListDefault: seq<string> := ["CsPad", "Camera"]
  const StripFileDefault: string := "CsPad"
  const CommandLineDefault: string := "CsPad,Camera"

  /** The command-line default, split at commas, is the constructor's
      default list, and both compile to "CsPad|Camera". */
  lemma CommandLineDefaultIsConstructorDefault()
    ensures Split(CommandLineDefault, ',') == DatasetListDefault
    ensures SkipRegex(DatasetListDefault) == "CsPad|Camera"
  {
    DefaultJoins();
    assert ',' !in DatasetListDefault[0] && ',' !in DatasetListDefault[1];
    SplitJoin(DatasetListDefault, ',');
  }

  /** The default list joined at "," and at "|". */
  lemma DefaultJoins()
    ensures Join(DatasetListDefault, ',') == CommandLineDefault
    ensures Join(DatasetListDefault, '|') == "CsPad|Camera"
  {
    assert DatasetListDefault[1..] == ["Camera"];
  }

  /** The command-line list `--skip_list "a,,b"` has an empty piece, so it
      skips every dataset. */
  lemma DoubleCommaSkipsEverything(name: string)
    ensures Search(SkipRegex(Split("a,,b", ',')), name)
  {
    SplitJoin(["a", "", "b"], ',');
    assert Join(["a", "", "b"], ',') == "a,,b";
    EmptyPatternSkipsEverything(["a", "", "b"], name);
  }

  /** The regex built from a command-line list is the list with every comma
      replaced by "|"; a name is skipped iff one of the comma-separated
      pieces occurs in it. */
  lemma CommandLineSkip(arg: string, name: string)
    requires '|' !in arg
    ensures Search(SkipRegex(Split(arg, ',')), name)
            <==> exists k :: 0 <= k < |Split(arg, ',')| && Occurs(Split(arg, ',')[k], name)
  {
    var ps := Split(arg, ',');
    forall k | 0 <= k < |ps| ensures '|' !in ps[k] {
      SplitPiecesFromString(arg, ',', k);
    }
    SkipIffSomePatternOccurs(ps, name);
  }

  /** Every character of a piece of `s.split(sep)` is a character of `s`. */
  lemma {:induction false} SplitPiecesFromString(s: string, sep: char, k: nat)
    requires k < |Split(s, sep)|
    ensures forall c :: c in Split(s, sep)[k] ==> c in s
    decreases |s|
  {
    if |s| > 0 {
      var rest := Split(s[1..], sep);
      if s[0] == sep {
        if k > 0 { SplitPiecesFromString(s[1..], sep, k - 1); }
      } else {
        if k == 0 { SplitPiecesFromString(s[1..], sep, 0); }
        else { SplitPiecesFromString(s[1..], sep, k); }
      }
    }
  }
}
