/** The path of the temporary polygon-mask raster of the masking stage:
    `out_raster_path.replace('.tif', '_temp_mask.tif')` (ntfp_functions.py:179), that is
    Python's `str.replace`, which rewrites every non-overlapping occurrence, scanning left to right. */
module TempPaths {

  const Tif: string := ".tif"
  const TempMaskTif: string := "_temp_mask.tif"

  predicate OccursAt(s: string, pat: string, i: nat) {
    i + |pat| <= |s| && s[i..i + |pat|] == pat
  }

  predicate Contains(s: string, pat: string) {
    exists i: nat | i <= |s| :: OccursAt(s, pat, i)
  }

  /** `s.replace(pat, rep)`. */
  function ReplaceAll(s: string, pat: string, rep: string): string
    requires pat != []
    decreases |s|
  {
    if |s| < |pat| then s
    else if s[..|pat|] == pat then rep + ReplaceAll(s[|pat|..], pat, rep)
    else [s[0]] + ReplaceAll(s[1..], pat, rep)
  }

  function TempMaskPath(out: string): string {
    ReplaceAll(out, Tif, TempMaskTif)
  }

  /** An occurrence that is not at the front is an occurrence in the tail. */
  lemma ContainsTail(s: string, pat: string)
    requires pat != [] && s != [] && Contains(s, pat) && !OccursAt(s, pat, 0)
    ensures Contains(s[1..], pat)
  {
    var i: nat :| i <= |s| && OccursAt(s, pat, i);
    assert i >= 1;
    assert s[1..][i - 1..i - 1 + |pat|] == s[i..i + |pat|];
    assert OccursAt(s[1..], pat, i - 1);
  }

  lemma NoOccurrenceInTail(s: string, pat: string, k: nat)
    requires k <= |s| && !Contains(s, pat)
    ensures !Contains(s[k..], pat)
  {
    if Contains(s[k..], pat) {
      var i: nat :| i <= |s[k..]| && OccursAt(s[k..], pat, i);
      assert s[k..][i..i + |pat|] == s[k + i..k + i + |pat|];
      assert OccursAt(s, pat, k + i);
    }
  }

  /** Replacing with a longer text never shortens, and strictly lengthens once the pattern occurs. */
  lemma {:induction false} ReplaceAllLength(s: string, pat: string, rep: string)
    requires pat != [] && |rep| > |pat|
    ensures |ReplaceAll(s, pat, rep)| >= |s|
    ensures Contains(s, pat) ==> |ReplaceAll(s, pat, rep)| > |s|
    decreases |s|
  {
    if |s| < |pat| {
      assert !Contains(s, pat);
    } else if s[..|pat|] == pat {
      ReplaceAllLength(s[|pat|..], pat, rep);
    } else {
      ReplaceAllLength(s[1..], pat, rep);
      if Contains(s, pat) {
        ContainsTail(s, pat);
      }
    }
  }

  /** Without an occurrence the text is returned unchanged. */
  lemma {:induction false} ReplaceAllAbsent(s: string, pat: string, rep: string)
    requires pat != [] && !Contains(s, pat)
    ensures ReplaceAll(s, pat, rep) == s
    decreases |s|
  {
    if |s| >= |pat| {
      assert !OccursAt(s, pat, 0);
      NoOccurrenceInTail(s, pat, 1);
      ReplaceAllAbsent(s[1..], pat, rep);
    }
  }

  /** The temporary path equals the output path exactly when the output path has no ".tif". */
  lemma TempMaskPathUnchangedIff(out: string)
    ensures TempMaskPath(out) == out <==> !Contains(out, Tif)
  {
    ReplaceAllLength(out, Tif, TempMaskTif);
    if !Contains(out, Tif) {
      ReplaceAllAbsent(out, Tif, TempMaskTif);
    }
  }

  /** The usual case: a path that ends in its only ".tif" gets "_temp_mask" before the extension. */
  lemma {:induction false} TempMaskPathOfTif(stem: string)
    requires !Contains(stem, Tif)
    ensures TempMaskPath(stem + Tif) == stem + TempMaskTif
    decreases |stem|
  {
    var s := stem + Tif;
    if stem == [] {
      assert s == Tif && s[|Tif|..] == [];
    } else {
      if |stem| >= |Tif| {
        assert s[..|Tif|] == stem[..|Tif|];
        assert !OccursAt(stem, Tif, 0);
      } else {
        assert s[|stem|] == '.';
        assert Tif[|stem|] != '.';
        assert s[..|Tif|][|stem|] == s[|stem|];
      }
      assert s[..|Tif|] != Tif;
      assert s[1..] == stem[1..] + Tif;
      NoOccurrenceInTail(stem, Tif, 1);
      TempMaskPathOfTif(stem[1..]);
    }
  }

  /** The intended temporary path: one that is never the output path itself. Where the output
      path holds ".tif" it is the replace above; otherwise the suffix is appended. */
  function SafeTempMaskPath(out: string): (t: string)
    ensures t != out
    ensures Contains(out, Tif) ==> t == TempMaskPath(out)
  {
    if Contains(out, Tif) then
      ReplaceAllLength(out, Tif, TempMaskTif);
      TempMaskPath(out)
    else
      out + TempMaskTif
  }

  /** The replace works left to right: the text before the first occurrence of the pattern
      (no occurrence starts inside it) is kept, that occurrence is replaced, and the rest is
      replaced in turn. */
  lemma {:induction false} ReplaceAllSplit(a: string, pat: string, rep: string, b: string)
    requires pat != []
    requires forall i :: 0 <= i < |a| ==> !OccursAt(a + pat + b, pat, i)
    ensures ReplaceAll(a + pat + b, pat, rep) == a + rep + ReplaceAll(b, pat, rep)
    decreases |a|
  {
    var s := a + pat + b;
    if a == [] {
      assert s == pat + b;
      assert s[..|pat|] == pat;
      assert s[|pat|..] == b;
      assert ReplaceAll(s, pat, rep) == rep + ReplaceAll(b, pat, rep);
    } else {
      var t := a[1..] + pat + b;
      assert !OccursAt(s, pat, 0);
      assert s[..|pat|] != pat;
      assert s[1..] == t;
      assert ReplaceAll(s, pat, rep) == [a[0]] + ReplaceAll(t, pat, rep);
      forall i | 0 <= i < |a[1..]| ensures !OccursAt(t, pat, i) {
        assert !OccursAt(s, pat, i + 1);
        assert t[i..i + |pat|] == s[i + 1..i + 1 + |pat|];
      }
      ReplaceAllSplit(a[1..], pat, rep, b);
      assert a == [a[0]] + a[1..];
    }
  }

  /** Every ".tif" is replaced, not only the last: the part before the first one is kept,
      that one becomes "_temp_mask.tif", and the rest of the path is treated the same way. */
  lemma TempMaskPathEveryOccurrence(a: string, b: string)
    requires forall i :: 0 <= i < |a| ==> !OccursAt(a + Tif + b, Tif, i)
    ensures TempMaskPath(a + Tif + b) == a + TempMaskTif + TempMaskPath(b)
  {
    ReplaceAllSplit(a, Tif, TempMaskTif, b);
  }

  /** A path without a full stop has no ".tif". */
  lemma NoPointNoTif(s: string)
    requires '.' !in s
    ensures !Contains(s, Tif)
  {
    forall i: nat | i <= |s| ensures !OccursAt(s, Tif, i) {
      if i + |Tif| <= |s| {
        assert s[i..i + |Tif|][0] == s[i];
      }
    }
  }

  /** Worked example: the masked-forest raster of the pipeline. */
  lemma TempMaskPathExample()
    ensures TempMaskPath("forest_10km_masked.tif") == "forest_10km_masked_temp_mask.tif"
  {
    var stem := "forest_10km_masked";
    assert stem + Tif == "forest_10km_masked.tif";
    assert stem + TempMaskTif == "forest_10km_masked_temp_mask.tif";
    NoPointNoTif(stem);
    TempMaskPathOfTif(stem);
  }

  /** Worked example: an output path with another extension keeps its own name. */
  lemma TempMaskPathExampleNoTif()
    ensures TempMaskPath("masked_gpkg") == "masked_gpkg"
  {
    NoPointNoTif("masked_gpkg");
    TempMaskPathUnchangedIff("masked_gpkg");
  }
}
