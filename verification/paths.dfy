/**
 POSIX path joining, as `os.path.join(a, b)` does it for two parts. Pathlib's
 `/` joins the same way but also collapses repeated separators and `.`
 segments, which this module does not model.
 */
module Paths {
  import opened Text

  predicate IsAbsolute(p: string) {
    StartsWith(p, "/")
  }

  /**
   `os.path.join(a, b)`: an absolute `b` replaces `a`; otherwise a `/` is
   inserted unless `a` is empty or already ends with one.
   */
  function Join(a: string, b: string): (r: string)
    ensures IsAbsolute(b) ==> r == b
    ensures !IsAbsolute(b) ==> StartsWith(r, a)
    ensures EndsWith(r, b)
  {
    if IsAbsolute(b) then b
    else if a == [] || EndsWith(a, "/") then a + b
    else a + "/" + b
  }

  /** A directory whose last character is not `/`, so joining inserts one. */
  predicate EndsInName(d: string) {
    |d| > 0 && d[|d| - 1] != '/'
  }

  /** A path segment: relative, and ending in a name. */
  predicate IsSegment(d: string) {
    EndsInName(d) && d[0] != '/'
  }

  lemma JoinInsertsSlash(a: string, b: string)
    requires EndsInName(a) && !IsAbsolute(b)
    ensures Join(a, b) == a + "/" + b
  {
    assert !EndsWith(a, "/") by {
      assert a[|a| - 1..] != "/";
    }
  }

  /** Joining through a plain segment does not depend on grouping. */
  lemma JoinAssociative(a: string, d: string, p: string)
    requires IsSegment(d)
    ensures Join(Join(a, d), p) == Join(a, Join(d, p))
  {
    if !IsAbsolute(p) {
      var dp := d + "/" + p;
      assert !IsAbsolute(d) && !IsAbsolute(dp) by {
        assert d[..1] != "/";
        assert dp[..1] == d[..1];
      }
      JoinInsertsSlash(d, p);
      var sep := if a == [] || EndsWith(a, "/") then "" else "/";
      assert Join(a, d) == a + sep + d;
      assert Join(a, dp) == a + sep + dp;
      JoinThroughSegment(a + sep, d, p);
    }
  }

  lemma JoinThroughSegment(prefix: string, d: string, p: string)
    requires EndsInName(d) && !IsAbsolute(p)
    ensures Join(prefix + d, p) == prefix + (d + "/" + p)
  {
    var pd := prefix + d;
    assert pd[|pd| - 1] == d[|d| - 1];
    JoinInsertsSlash(pd, p);
  }

  /** Joining a relative name adds that name and at most one separator. */
  lemma JoinRelativeLength(a: string, b: string)
    requires !IsAbsolute(b)
    ensures |a| + |b| <= |Join(a, b)| <= |a| + |b| + 1
  {
  }

  /** Under an absolute directory ending in a name, joining a relative name is `dir + "/" + name`, still absolute. */
  lemma JoinUnderAbsoluteDir(d: string, b: string)
    requires EndsInName(d) && IsAbsolute(d) && !IsAbsolute(b)
    ensures Join(d, b) == d + ("/" + b)
    ensures IsAbsolute(d + ("/" + b))
  {
    JoinInsertsSlash(d, b);
    assert (d + ("/" + b))[..1] == d[..1];
  }
}
