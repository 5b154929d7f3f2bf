/** The path predicate of the distribution check: does a file path in the
    build output look like a test file that leaked into the package? */
module VerifyDist {
  import opened Text

  /** Replaces every backslash by a forward slash, leaving other characters. */
  function Normalize(path: string): (r: string)
    ensures |r| == |path|
    ensures forall i :: 0 <= i < |path| ==> r[i] == (if path[i] == '\\' then '/' else path[i])
  {
    if path == [] then [] else [if path[0] == '\\' then '/' else path[0]] + Normalize(path[1..])
  }

  /** A leaked test artifact names a `.test.` or `.spec.` file, or lies in a
      `__tests__` or `tests` directory, once separators are normalised. */
  predicate IsLeakedTestArtifact(path: string) {
    var normalized := Normalize(path);
    Contains(normalized, ".test.") ||
    Contains(normalized, ".spec.") ||
    Contains(normalized, "/__tests__/") ||
    Contains(normalized, "/tests/")
  }

  /** A normalised path has no backslash, and normalising twice changes nothing. */
  lemma NormalizeCanonical(path: string)
    ensures forall i :: 0 <= i < |Normalize(path)| ==> Normalize(path)[i] != '\\'
    ensures Normalize(Normalize(path)) == Normalize(path)
  {
  }

  predicate NoSeparator(pat: string) {
    forall i :: 0 <= i < |pat| ==> pat[i] != '/' && pat[i] != '\\'
  }

  /** A pattern with no separator occurs in the normalised path exactly when it
      occurs in the path as given. */
  lemma {:induction false} NormalizeKeepsPlainOccurrences(path: string, pat: string)
    requires NoSeparator(pat)
    ensures Contains(Normalize(path), pat) <==> Contains(path, pat)
    decreases |path|
  {
    var n := Normalize(path);
    assert IsPrefix(pat, n) <==> IsPrefix(pat, path) by {
      if |pat| <= |path| {
        if n[..|pat|] == pat {
          forall i | 0 <= i < |pat| ensures path[i] == pat[i] {
            assert n[i] == pat[i];
          }
          assert path[..|pat|] == pat;
        }
        if path[..|pat|] == pat {
          forall i | 0 <= i < |pat| ensures n[i] == pat[i] {
            assert path[i] == pat[i];
          }
          assert n[..|pat|] == pat;
        }
      }
    }
    if |path| > 0 {
      assert n[1..] == Normalize(path[1..]);
      NormalizeKeepsPlainOccurrences(path[1..], pat);
    }
  }

  /** The predicate restated on the path as given: the file-name markers are
      looked for in the raw path, the directory markers after normalisation. */
  lemma LeakedIff(path: string)
    ensures IsLeakedTestArtifact(path) <==>
      Contains(path, ".test.") || Contains(path, ".spec.") ||
      Contains(Normalize(path), "/__tests__/") || Contains(Normalize(path), "/tests/")
  {
    NormalizeKeepsPlainOccurrences(path, ".test.");
    NormalizeKeepsPlainOccurrences(path, ".spec.");
  }

  /** Either path separator. */
  predicate IsSeparator(c: char) {
    c == '/' || c == '\\'
  }

  /** A `tests` or `__tests__` directory is caught whichever separator it is
      written with on either side, the two sides alike or mixed. */
  lemma DirectoryMarkers(prefix: string, suffix: string, before: char, after: char)
    requires IsSeparator(before) && IsSeparator(after)
    ensures IsLeakedTestArtifact(prefix + [before] + "tests" + [after] + suffix)
    ensures IsLeakedTestArtifact(prefix + [before] + "__tests__" + [after] + suffix)
  {
    var p1 := prefix + [before] + "tests" + [after] + suffix;
    var n1 := Normalize(p1);
    assert n1[|prefix|..|prefix| + 7] == "/tests/";
    OccursContains(n1, "/tests/", |prefix|);
    var p2 := prefix + [before] + "__tests__" + [after] + suffix;
    var n2 := Normalize(p2);
    assert n2[|prefix|..|prefix| + 11] == "/__tests__/";
    OccursContains(n2, "/__tests__/", |prefix|);
  }

  /** A `.test.` or `.spec.` marker anywhere in the path is caught. */
  lemma FileMarkers(prefix: string, suffix: string)
    ensures IsLeakedTestArtifact(prefix + ".test." + suffix)
    ensures IsLeakedTestArtifact(prefix + ".spec." + suffix)
  {
    var p1 := prefix + ".test." + suffix;
    var p2 := prefix + ".spec." + suffix;
    assert p1[|prefix|..|prefix| + 6] == ".test.";
    assert p2[|prefix|..|prefix| + 6] == ".spec.";
    OccursContains(p1, ".test.", |prefix|);
    OccursContains(p2, ".spec.", |prefix|);
    LeakedIff(p1);
    LeakedIff(p2);
  }
}
