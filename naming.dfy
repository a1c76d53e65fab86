/**
 The name of the stripped copy (lclsStrip2D.py:56-61):
 `outputFolder + "/" + os.path.splitext(os.path.basename(h5name))[0] + ".stripped.h5"`.

 `os.path.basename` and `os.path.splitext` are given their POSIX meaning:
 the separator is "/", the extension separator ".", and a file name made only
 of leading dots before its last dot (".h5", "..h5") has no extension.
 */
module Naming {
  import opened Patterns

  /** Index of the last `c` in `s`, or -1 (`str.rfind`). */
  function LastIndexOf(s: string, c: char): (i: int)
    ensures -1 <= i < |s|
    ensures i >= 0 ==> s[i] == c
    ensures forall j :: i < j < |s| ==> s[j] != c
  {
    LastIndexBefore(s, c, |s|)
  }

  /** Index of the last `c` among the first `n` characters of `s`, or -1. */
  function LastIndexBefore(s: string, c: char, n: nat): (i: int)
    requires n <= |s|
    ensures -1 <= i < n
    ensures i >= 0 ==> s[i] == c
    ensures forall j :: i < j < n ==> s[j] != c
    decreases n
  {
    if n == 0 then -1
    else if s[n - 1] == c then n - 1
    else LastIndexBefore(s, c, n - 1)
  }

  /** `os.path.basename(p)`: everything after the last "/". The three
      clauses determine the result: it has no "/", it is a suffix of `p`, and
      it is either all of `p` or preceded by a "/". */
  function Basename(p: string): (b: string)
    ensures '/' !in b
    ensures |b| <= |p| && b == p[|p| - |b|..]
    ensures |b| == |p| || p[|p| - |b| - 1] == '/'
  {
    p[LastIndexOf(p, '/') + 1..]
  }

  /** The last component of `p` has an extension: a "." after the last "/"
      that is preceded, still after the last "/", by a character other than ".". */
  predicate HasExtension(p: string)
  {
    exists k, d :: LastIndexOf(p, '/') < k < d < |p| && p[k] != '.' && p[d] == '.'
  }

  /** `os.path.splitext(p)`: the pair (root, ext) with root + ext == p, where
      ext is empty or starts at the last "." of the last component. */
  function SplitExt(p: string): (r: (string, string))
    ensures r.0 + r.1 == p
    ensures r.1 != [] <==> HasExtension(p)
    ensures r.1 != [] ==> r.1[0] == '.' && '.' !in r.1[1..] && '/' !in r.1
  {
    var sep := LastIndexOf(p, '/');
    var dot := LastIndexOf(p, '.');
    if dot > sep && exists k :: sep + 1 <= k < dot && p[k] != '.' then
      assert p[..dot] + p[dot..] == p;
      (p[..dot], p[dot..])
    else
      (p, "")
  }

  /** The input's file name without its directory and without its last
      extension. */
  function Stem(h5name: string): (s: string)
    ensures '/' !in s
  {
    var b := Basename(h5name);
    var r := SplitExt(b);
    assert r.0 == b[..|r.0|];
    r.0
  }

  /** The suffix that marks a stripped copy. */
  const StrippedSuffix: string := ".stripped.h5"

  /** The file name of the stripped copy. */
  function OutputFileName(h5name: string): (f: string)
    ensures '/' !in f
  {
    assert '/' !in StrippedSuffix;
    Stem(h5name) + StrippedSuffix
  }

  /** The path `stripFile` writes to (lclsStrip2D.py:56-61). */
  function OutputName(h5name: string, outputFolder: string): string
  {
    outputFolder + "/" + OutputFileName(h5name)
  }

  /** The basename of `dir + "/" + f`, for a file name `f` without "/", is `f`. */
  lemma BasenameOfChild(dir: string, f: string)
    requires '/' !in f
    ensures Basename(dir + "/" + f) == f
  {
    var x := dir + "/" + f;
    var b := Basename(x);
    assert x[|x| - |f| - 1] == '/';
    assert x[|x| - |f|..] == f;
  }

  /** The output lies directly in the output folder, and its file name is
      the input's stem followed by ".stripped.h5", whatever directory the
      input was in. */
  lemma OutputBasename(h5name: string, outputFolder: string)
    ensures Basename(OutputName(h5name, outputFolder)) == Stem(h5name) + StrippedSuffix
    ensures OutputName(h5name, outputFolder)
            == outputFolder + "/" + Basename(OutputName(h5name, outputFolder))
  {
    BasenameOfChild(outputFolder, OutputFileName(h5name));
  }

  /** Two inputs with the same file name in different directories are given
      the same output path. */
  lemma SameFileNameSameOutput(dir1: string, dir2: string, f: string, outputFolder: string)
    requires '/' !in f
    ensures OutputName(dir1 + "/" + f, outputFolder) == OutputName(dir2 + "/" + f, outputFolder)
  {
    BasenameOfChild(dir1, f);
    BasenameOfChild(dir2, f);
  }

  /** The output path is never the input path, so opening the output for
      writing never truncates the input: an input's extension has no "."
      after its first character, and ".stripped.h5" has one. */
  lemma OutputIsNotInput(h5name: string, outputFolder: string)
    ensures OutputName(h5name, outputFolder) != h5name
  {
    OutputBasename(h5name, outputFolder);
    var b := Basename(h5name);
    var stem := Stem(h5name);
    var ext := SplitExt(b).1;
    assert b == stem + ext;
    ExtensionIsNotSuffix(ext);
    DistinctTails(stem, ext, StrippedSuffix);
  }

  /** No extension `splitext` can return is ".stripped.h5". */
  lemma ExtensionIsNotSuffix(ext: string)
    requires ext != [] ==> '.' !in ext[1..]
    ensures ext != StrippedSuffix
  {
    assert StrippedSuffix[1..][8] == '.';
  }

  /** Equal heads with different tails give different strings. */
  lemma DistinctTails(head: string, a: string, b: string)
    requires a != b
    ensures head + a != head + b
  {
    if |a| == |b| {
      var k :| 0 <= k < |a| && a[k] != b[k];
      assert (head + a)[|head| + k] == a[k];
      assert (head + b)[|head| + k] == b[k];
    }
  }

  /** The marker the input filter looks for (lclsStrip2D.py:108). */
  const StrippedMarker: string := "stripped.h5"

  /** A file whose basename contains the marker is taken for a stripped copy. */
  predicate IsStrippedName(f: string)
  {
    Occurs(StrippedMarker, Basename(f))
  }

  /** Every output path carries the marker, so a later run over the output
      folder never takes a stripped copy for an input. */
  lemma OutputIsStrippedName(h5name: string, outputFolder: string)
    ensures IsStrippedName(OutputName(h5name, outputFolder))
  {
    OutputBasename(h5name, outputFolder);
    MarkerAfterStem(Stem(h5name));
  }

  /** Any name ending in ".stripped.h5" carries the marker. */
  lemma MarkerAfterStem(stem: string)
    ensures Occurs(StrippedMarker, stem + StrippedSuffix)
  {
    var b := stem + StrippedSuffix;
    var i := |stem| + 1;
    assert b[|stem|..] == StrippedSuffix;
    assert StrippedSuffix[1..] == StrippedMarker;
    assert b[i..i + |StrippedMarker|] == StrippedMarker;
    assert OccursAt(StrippedMarker, b, i);
  }

  /** A run file in a deep directory keeps only its stem. */
  lemma ExampleRunFile()
    ensures OutputName("/reg/d/xpp/run0012.h5", "out") == "out" + "/" + "run0012" + ".stripped.h5"
  {
    RunFileStem();
    RunFileOutput("/reg/d/xpp/run0012.h5");
  }

  lemma RunFileOutput(h5name: string)
    requires Stem(h5name) == "run0012"
    ensures OutputName(h5name, "out") == "out" + "/" + "run0012" + ".stripped.h5"
  {
  }

  lemma RunFileStem()
    ensures Stem("/reg/d/xpp/run0012.h5") == "run0012"
  {
    RunFileBasename();
    RunFileExtension();
  }

  lemma RunFileBasename()
    ensures Basename("/reg/d/xpp/run0012.h5") == "run0012.h5"
  {
    BasenameOfChild("/reg/d/xpp", "run0012.h5");
    assert "/reg/d/xpp" + "/" + "run0012.h5" == "/reg/d/xpp/run0012.h5";
  }

  lemma RunFileExtension()
    ensures SplitExt("run0012.h5") == ("run0012", ".h5")
  {
    var b := "run0012.h5";
    assert b[7] == '.' && b[8] != '.' && b[9] != '.';
    assert LastIndexOf(b, '.') == 7;
    assert forall k :: 0 <= k < |b| ==> b[k] != '/';
    assert LastIndexOf(b, '/') == -1;
    assert b[0] != '.';
    assert b[..7] == "run0012";
    assert b[7..] == ".h5";
  }

  /** A name that is only dots before its last dot has no extension, so the
      whole name is kept. */
  lemma ExampleHiddenFile()
    ensures OutputName(".h5", "o") == "o" + "/" + ".h5" + ".stripped.h5"
  {
    HiddenFileExtension();
  }

  lemma HiddenFileExtension()
    ensures Basename(".h5") == ".h5"
    ensures SplitExt(".h5") == (".h5", "")
  {
    var b := ".h5";
    assert forall k :: 0 <= k < |b| ==> b[k] != '/';
    assert LastIndexOf(b, '/') == -1;
    assert b[0] == '.' && b[1] != '.' && b[2] != '.';
    assert LastIndexOf(b, '.') == 0;
  }
}
