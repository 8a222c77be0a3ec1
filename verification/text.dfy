/**
 Strings as Python's `str` treats them: suffix tests and the replace-all
 `str.replace(pat, rep)` that scans left to right and replaces every
 non-overlapping occurrence.
 */
module Text {

  /** Python `s.startswith(p)`. */
  predicate StartsWith(s: string, p: string) {
    |p| <= |s| && s[..|p|] == p
  }

  /** Python `s.endswith(p)`. */
  predicate EndsWith(s: string, p: string) {
    |p| <= |s| && s[|s| - |p|..] == p
  }

  /** A concatenation starts with its first part and ends with its second. */
  lemma ConcatAffixes(a: string, b: string)
    ensures StartsWith(a + b, a) && EndsWith(a + b, b)
  {
    assert (a + b)[..|a|] == a;
    assert (a + b)[|a + b| - |b|..] == b;
  }

  /** `p` occurs in `s` starting at index `i`. */
  predicate OccursAt(s: string, p: string, i: int) {
    0 <= i && i + |p| <= |s| && s[i..i + |p|] == p
  }

  /**
   Python `s.replace(pat, rep)` with no count: every occurrence of `pat`
   found by a left-to-right scan is replaced, and the scan resumes after the
   replaced occurrence. An empty `pat` inserts `rep` before every character
   and at the end, as CPython does.
   */
  function ReplaceAll(s: string, pat: string, rep: string): (r: string)
    ensures |pat| == |rep| ==> |r| == |s|
    ensures |pat| > 0 && |s| < |pat| ==> r == s
    decreases |s|
  {
    if |pat| == 0 then
      if |s| == 0 then rep else rep + [s[0]] + ReplaceAll(s[1..], pat, rep)
    else if |s| < |pat| then s
    else if s[..|pat|] == pat then rep + ReplaceAll(s[|pat|..], pat, rep)
    else [s[0]] + ReplaceAll(s[1..], pat, rep)
  }

  const Tex := ".tex"
  const Pdf := ".pdf"

  /** A string with no occurrence of `pat` is left as it is. */
  lemma {:induction false} ReplaceAllWithoutOccurrence(s: string, pat: string, rep: string)
    requires |pat| > 0
    requires forall i :: !OccursAt(s, pat, i)
    ensures ReplaceAll(s, pat, rep) == s
    decreases |s|
  {
    if |s| < |pat| {
    } else {
      assert !OccursAt(s, pat, 0);
      assert s[..|pat|] != pat;
      forall i ensures !OccursAt(s[1..], pat, i) {
        if OccursAt(s[1..], pat, i) {
          assert s[1..][i..i + |pat|] == s[i + 1..i + 1 + |pat|];
          assert OccursAt(s, pat, i + 1);
        }
      }
      ReplaceAllWithoutOccurrence(s[1..], pat, rep);
    }
  }

  /** A name without `.tex` keeps its exact text under the `.tex`-to-`.pdf` replacement. */
  lemma ReplaceTexWithoutTex(s: string)
    ensures (forall i :: !OccursAt(s, Tex, i)) ==> ReplaceAll(s, Tex, Pdf) == s
  {
    if forall i :: !OccursAt(s, Tex, i) {
      ReplaceAllWithoutOccurrence(s, Tex, Pdf);
    }
  }

  /** `.tex` overlaps no shifted copy of itself: it has no proper border. */
  lemma TexHasNoBorder(s: string, k: int)
    requires 0 < k < |Tex|
    ensures !(OccursAt(s, Tex, 0) && OccursAt(s, Tex, k))
  {
    if OccursAt(s, Tex, 0) && k + 4 <= |s| {
      assert s[k] == s[..4][k] == Tex[k];
      assert s[k..k + 4][0] != Tex[0];
    }
  }

  /**
   A name ending in `.tex` is turned into one ending in `.pdf`: the final
   occurrence is always reached by the scan, because `.tex` cannot overlap
   an earlier occurrence.
   */
  lemma {:induction false} ReplaceTexKeepsSuffix(s: string)
    requires EndsWith(s, Tex)
    ensures EndsWith(ReplaceAll(s, Tex, Pdf), Pdf)
    decreases |s|
  {
    var r := ReplaceAll(s, Tex, Pdf);
    if s[..4] == Tex {
      var rest := ReplaceAll(s[4..], Tex, Pdf);
      assert r == Pdf + rest;
      if |s| == 4 {
        assert rest == [];
      } else if |s| < 8 {
        assert OccursAt(s, Tex, 0);
        assert OccursAt(s, Tex, |s| - 4);
        TexHasNoBorder(s, |s| - 4);
        assert false;
      } else {
        assert s[4..][|s[4..]| - 4..] == s[|s| - 4..];
        ReplaceTexKeepsSuffix(s[4..]);
        assert r[|r| - 4..] == rest[|rest| - 4..];
      }
    } else {
      var rest := ReplaceAll(s[1..], Tex, Pdf);
      assert r == [s[0]] + rest;
      assert |s| > 4;
      assert s[1..][|s[1..]| - 4..] == s[|s| - 4..];
      ReplaceTexKeepsSuffix(s[1..]);
      assert r[|r| - 4..] == rest[|rest| - 4..];
    }
  }

  /**
   Where the replaced string shows no `.`, the replacement has changed
   nothing: every replacement starts with the `.` of `.pdf`.
   */
  lemma {:induction false} ReplaceTexPrefixWithoutDot(s: string, k: nat)
    requires k <= |s|
    ensures (forall j :: 0 <= j < k ==> ReplaceAll(s, Tex, Pdf)[j] != '.') ==>
              ReplaceAll(s, Tex, Pdf)[..k] == s[..k]
    decreases k
  {
    var r := ReplaceAll(s, Tex, Pdf);
    if k == 0 || |s| < 4 {
    } else if s[..4] == Tex {
      assert r == Pdf + ReplaceAll(s[4..], Tex, Pdf);
      assert r[0] == '.';
    } else {
      var rest := ReplaceAll(s[1..], Tex, Pdf);
      assert r == [s[0]] + rest;
      if forall j :: 0 <= j < k ==> r[j] != '.' {
        forall j | 0 <= j < k - 1 ensures rest[j] != '.' {
          assert rest[j] == r[j + 1];
        }
        ReplaceTexPrefixWithoutDot(s[1..], k - 1);
        assert r[..k] == [s[0]] + rest[..k - 1];
        assert s[..k] == [s[0]] + s[1..][..k - 1];
      }
    }
  }

  /** No `.tex` straddles or follows a leading `.pdf` unless it was already in `rest`. */
  lemma PdfPrefixAddsNoTex(rest: string)
    requires forall i :: !OccursAt(rest, Tex, i)
    ensures forall i :: !OccursAt(Pdf + rest, Tex, i)
  {
    var r := Pdf + rest;
    forall i ensures !OccursAt(r, Tex, i) {
      if 0 < i < 4 && i + 4 <= |r| {
        assert r[i..i + 4][0] == Pdf[i];
      } else if 4 <= i && i + 4 <= |r| {
        assert r[i..i + 4] == rest[i - 4..i];
        assert !OccursAt(rest, Tex, i - 4);
      }
    }
  }

  /** Keeping an unmatched first character adds no `.tex` to the replaced rest. */
  lemma KeptCharAddsNoTex(s: string)
    requires |s| >= 4 && s[..4] != Tex
    requires forall i :: !OccursAt(ReplaceAll(s[1..], Tex, Pdf), Tex, i)
    ensures forall i :: !OccursAt([s[0]] + ReplaceAll(s[1..], Tex, Pdf), Tex, i)
  {
    var rest := ReplaceAll(s[1..], Tex, Pdf);
    var r := [s[0]] + rest;
    forall i ensures !OccursAt(r, Tex, i) {
      if i == 0 {
        assert r[..4] == [s[0]] + rest[..3];
        assert s[..4] == [s[0]] + s[1..][..3];
        ReplaceTexPrefixWithoutDot(s[1..], 3);
        if forall j :: 0 <= j < 3 ==> rest[j] != '.' {
          assert rest[..3] == s[1..][..3];
        } else {
          var j :| 0 <= j < 3 && rest[j] == '.';
          assert r[..4][j + 1] == '.';
        }
      } else if 0 < i && i + 4 <= |r| {
        assert r[i..i + 4] == rest[i - 1..i + 3];
        assert !OccursAt(rest, Tex, i - 1);
      }
    }
  }

  /** Every `.tex` is replaced: none is left in the result. */
  lemma {:induction false} ReplaceTexLeavesNoTex(s: string)
    ensures forall i :: !OccursAt(ReplaceAll(s, Tex, Pdf), Tex, i)
    decreases |s|
  {
    if |s| < 4 {
    } else if s[..4] == Tex {
      ReplaceTexLeavesNoTex(s[4..]);
      PdfPrefixAddsNoTex(ReplaceAll(s[4..], Tex, Pdf));
    } else {
      ReplaceTexLeavesNoTex(s[1..]);
      KeptCharAddsNoTex(s);
    }
  }

  /** Dropping the first character of a `.tex`-free string keeps it `.tex`-free. */
  lemma TailWithoutTex(p: string)
    requires |p| > 0 && forall i :: !OccursAt(p, Tex, i)
    ensures forall i :: !OccursAt(p[1..], Tex, i)
  {
    forall i ensures !OccursAt(p[1..], Tex, i) {
      if 0 <= i && i + 4 <= |p[1..]| {
        assert p[1..][i..i + 4] == p[i + 1..i + 5];
        assert !OccursAt(p, Tex, i + 1);
      }
    }
  }

  /** A non-empty `.tex`-free prefix keeps the scan from matching at the start. */
  lemma NoTexAtStart(p: string, q: string)
    requires |p| > 0 && forall i :: !OccursAt(p, Tex, i)
    ensures (p + Tex + q)[..4] != Tex
  {
    var s := p + Tex + q;
    assert OccursAt(s, Tex, |p|) by {
      assert s[|p|..|p| + 4] == Tex;
    }
    if |p| < 4 {
      TexHasNoBorder(s, |p|);
    } else {
      assert s[..4] == p[..4];
      assert !OccursAt(p, Tex, 0);
    }
  }

  /**
   The scan reaches the first `.tex` aligned: everything before it is kept,
   that occurrence becomes `.pdf`, and the scan resumes right after it.
   */
  lemma {:induction false} ReplaceTexFirstOccurrence(p: string, q: string)
    requires forall i :: !OccursAt(p, Tex, i)
    ensures ReplaceAll(p + Tex + q, Tex, Pdf) == p + Pdf + ReplaceAll(q, Tex, Pdf)
    decreases |p|
  {
    var s := p + Tex + q;
    if |p| == 0 {
      assert s[..4] == Tex;
      assert s[4..] == q;
    } else {
      NoTexAtStart(p, q);
      TailWithoutTex(p);
      assert s[1..] == p[1..] + Tex + q;
      ReplaceTexFirstOccurrence(p[1..], q);
      assert p + Pdf + ReplaceAll(q, Tex, Pdf) == [p[0]] + (p[1..] + Pdf + ReplaceAll(q, Tex, Pdf));
    }
  }

  /**
   When `.tex` occurs only as the suffix, replacing every occurrence is the
   same as swapping the suffix for `.pdf`.
   */
  lemma ReplaceTexSuffixOnly(p: string)
    requires forall i :: !OccursAt(p, Tex, i)
    ensures ReplaceAll(p + Tex, Tex, Pdf) == p + Pdf
  {
    ReplaceTexFirstOccurrence(p, []);
    assert p + Tex + [] == p + Tex;
    assert p + Pdf + [] == p + Pdf;
  }
}
