/**
 The list of files the command line processes (lclsStrip2D.py:105-110).

 For a directory, the paths that `glob` found are sorted and every path whose
 basename contains "stripped.h5" is dropped; for anything else, the input
 itself is the one file, whatever its name. Whether the input is a directory
 and what the glob found are queries of the file system and are parameters.
 */
module Inputs {
  import opened Patterns
  import opened Naming

  // ---------------------------------------------------------------------------
  // Python's ordering of strings: lexicographic by code point
  // ---------------------------------------------------------------------------

  /** `a < b` on Python strings. */
  predicate Less(a: string, b: string)
    decreases |a|
  {
    |b| > 0 && (|a| == 0 || a[0] < b[0] || (a[0] == b[0] && Less(a[1..], b[1..])))
  }

  lemma {:induction false} LessIrreflexiveAsymmetric(a: string, b: string)
    ensures !Less(a, a)
    ensures Less(a, b) ==> !Less(b, a)
    decreases |a|
  {
    if |a| > 0 && |b| > 0 {
      LessIrreflexiveAsymmetric(a[1..], b[1..]);
    } else if |a| > 0 {
      LessIrreflexiveAsymmetric(a[1..], a[1..]);
    }
  }

  lemma {:induction false} LessTotal(a: string, b: string)
    ensures a == b || Less(a, b) || Less(b, a)
    decreases |a|
  {
    if |a| > 0 && |b| > 0 && a[0] == b[0] {
      LessTotal(a[1..], b[1..]);
      if a[1..] == b[1..] {
        assert a == [a[0]] + a[1..] && b == [b[0]] + b[1..];
      }
    }
  }

  lemma {:induction false} LessTransitive(a: string, b: string, c: string)
    requires Less(a, b) && Less(b, c)
    ensures Less(a, c)
    decreases |a|
  {
    if |a| > 0 && a[0] == b[0] && b[0] == c[0] {
      LessTransitive(a[1..], b[1..], c[1..]);
    }
  }

  /** `a <= b` on Python strings, stated as "not b < a". */
  predicate AtMost(a: string, b: string)
  {
    !Less(b, a)
  }

  lemma AtMostTransitive(a: string, b: string, c: string)
    requires AtMost(a, b) && AtMost(b, c)
    ensures AtMost(a, c)
  {
    LessTotal(a, b);
    LessTotal(b, c);
    if Less(c, a) {
      if a != b && b != c {
        LessTransitive(a, b, c);
        LessIrreflexiveAsymmetric(a, c);
      }
    }
  }

  /** Every element is at most every later element. */
  predicate Sorted(s: seq<string>)
  {
    forall i, j :: 0 <= i < j < |s| ==> AtMost(s[i], s[j])
  }

  // ---------------------------------------------------------------------------
  // sorted()
  // ---------------------------------------------------------------------------

  /** Inserts `x` into the sorted list `s`. */
  function Insert(x: string, s: seq<string>): (r: seq<string>)
    requires Sorted(s)
    ensures Sorted(r)
    ensures multiset(r) == multiset(s) + multiset{x}
    decreases |s|
  {
    if |s| == 0 then [x]
    else if AtMost(x, s[0]) then
      assert forall j :: 0 < j < |s| ==> AtMost(x, s[j]) by {
        forall j | 0 < j < |s| ensures AtMost(x, s[j]) {
          AtMostTransitive(x, s[0], s[j]);
        }
      }
      assert forall j :: 0 <= j < |s| ==> ([x] + s)[j + 1] == s[j];
      [x] + s
    else
      var t := Insert(x, s[1..]);
      assert s == [s[0]] + s[1..];
      assert AtMost(s[0], x) by { LessIrreflexiveAsymmetric(s[0], x); }
      assert forall j :: 0 <= j < |t| ==> AtMost(s[0], t[j]) by {
        forall j | 0 <= j < |t| ensures AtMost(s[0], t[j]) {
          assert t[j] in multiset(t);
          if t[j] != x {
            assert t[j] in multiset(s[1..]);
            var k :| 0 <= k < |s[1..]| && s[1..][k] == t[j];
            assert s[k + 1] == t[j];
          }
        }
      }
      assert forall j :: 0 <= j < |t| ==> ([s[0]] + t)[j + 1] == t[j];
      [s[0]] + t
  }

  /** `sorted(fs)`: the same strings, in Python's order. */
  function SortStrings(fs: seq<string>): (r: seq<string>)
    ensures Sorted(r)
    ensures multiset(r) == multiset(fs)
    decreases |fs|
  {
    if |fs| == 0 then []
    else
      assert fs == [fs[0]] + fs[1..];
      Insert(fs[0], SortStrings(fs[1..]))
  }

  // ---------------------------------------------------------------------------
  // The filter and the file list
  // ---------------------------------------------------------------------------

  /** The elements of `fs` that satisfy `keep`, in their order. */
  function Filter(fs: seq<string>, keep: string -> bool): (r: seq<string>)
    ensures forall f :: f in r <==> f in fs && keep(f)
    ensures |r| <= |fs|
    decreases |fs|
  {
    if |fs| == 0 then []
    else
      var rest := Filter(fs[1..], keep);
      assert forall f :: f in fs <==> f == fs[0] || f in fs[1..] by {
        assert fs == [fs[0]] + fs[1..];
      }
      if keep(fs[0]) then [fs[0]] + rest else rest
  }

  /** Each kept path occurs in the result as often as in `fs`, and no
      other path occurs: nothing is repeated or lost. */
  lemma {:induction false} FilterCounts(fs: seq<string>, keep: string -> bool)
    ensures forall f :: multiset(Filter(fs, keep))[f] == if keep(f) then multiset(fs)[f] else 0
    decreases |fs|
  {
    if |fs| > 0 {
      FilterCounts(fs[1..], keep);
      var rest := Filter(fs[1..], keep);
      assert fs == [fs[0]] + fs[1..];
      assert multiset(fs) == multiset{fs[0]} + multiset(fs[1..]);
      if keep(fs[0]) {
        assert multiset([fs[0]] + rest) == multiset{fs[0]} + multiset(rest);
      }
    }
  }

  /** Filtering distributes over concatenation: what is kept of `a` comes
      before what is kept of `b`, so kept paths keep their relative order. */
  lemma {:induction false} FilterAppend(a: seq<string>, b: seq<string>, keep: string -> bool)
    ensures Filter(a + b, keep) == Filter(a, keep) + Filter(b, keep)
    decreases |a|
  {
    if |a| > 0 {
      var ab := a + b;
      assert ab[0] == a[0] && ab[1..] == a[1..] + b;
      FilterAppend(a[1..], b, keep);
      var rest := Filter(a[1..], keep) + Filter(b, keep);
      assert Filter(ab, keep) == if keep(a[0]) then [a[0]] + rest else rest;
      assert Filter(a, keep) == if keep(a[0]) then [a[0]] + Filter(a[1..], keep) else Filter(a[1..], keep);
    } else {
      assert a + b == b;
    }
  }

  /** Filtering keeps the order of what it keeps. */
  lemma {:induction false} FilterKeepsOrder(fs: seq<string>, keep: string -> bool)
    requires Sorted(fs)
    ensures Sorted(Filter(fs, keep))
    decreases |fs|
  {
    if |fs| > 0 {
      var rest := Filter(fs[1..], keep);
      assert Sorted(fs[1..]) by {
        forall i, j | 0 <= i < j < |fs[1..]| ensures AtMost(fs[1..][i], fs[1..][j]) {
          assert fs[1..][i] == fs[i + 1] && fs[1..][j] == fs[j + 1];
        }
      }
      FilterKeepsOrder(fs[1..], keep);
      if keep(fs[0]) {
        var r := [fs[0]] + rest;
        forall i, j | 0 <= i < j < |r| ensures AtMost(r[i], r[j]) {
          if i > 0 {
            assert r[i] == rest[i - 1] && r[j] == rest[j - 1];
          } else {
            assert r[j] == rest[j - 1] && rest[j - 1] in fs[1..];
            HeadAtMostRest(fs, r[j]);
          }
        }
      }
    }
  }

  /** The head of a sorted list is at most every element of its tail. */
  lemma HeadAtMostRest(fs: seq<string>, x: string)
    requires Sorted(fs) && |fs| > 0 && x in fs[1..]
    ensures AtMost(fs[0], x)
  {
    var k :| 0 <= k < |fs[1..]| && fs[1..][k] == x;
    assert fs[k + 1] == x;
  }

  /** `[f for f in fs if "stripped.h5" not in os.path.basename(f)]`. */
  function Unstripped(fs: seq<string>): (r: seq<string>)
    ensures forall f :: f in r <==> f in fs && !IsStrippedName(f)
    ensures forall f :: multiset(r)[f] == if IsStrippedName(f) then 0 else multiset(fs)[f]
  {
    FilterCounts(fs, f => !IsStrippedName(f));
    Filter(fs, f => !IsStrippedName(f))
  }

  /** The files the command line processes (lclsStrip2D.py:105-110). */
  function InputFiles(input: string, inputIsDir: bool, globbed: seq<string>): (r: seq<string>)
    ensures inputIsDir ==> Sorted(r)
    ensures inputIsDir ==> forall f :: f in r <==> f in globbed && !IsStrippedName(f)
    ensures inputIsDir ==> forall f ::
              multiset(r)[f] == if IsStrippedName(f) then 0 else multiset(globbed)[f]
    ensures !inputIsDir ==> r == [input]
  {
    if inputIsDir then
      var sorted := SortStrings(globbed);
      assert forall f :: f in sorted <==> f in globbed by {
        assert forall f :: f in sorted <==> f in multiset(sorted);
        assert forall f :: f in globbed <==> f in multiset(globbed);
      }
      FilterKeepsOrder(sorted, f => !IsStrippedName(f));
      Unstripped(sorted)
    else
      [input]
  }

  /** A stripped copy written into the scanned directory is never picked
      up again as an input. */
  lemma OutputsAreNotInputs(input: string, globbed: seq<string>, h5name: string)
    ensures OutputName(h5name, input) !in InputFiles(input, true, globbed)
  {
    OutputIsStrippedName(h5name, input);
  }
}
