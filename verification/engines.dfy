/**
 Engine resolution: the requested engine name is mapped to an executable
 basename, three fixed installation directories are probed in order, and
 the process's search path is the last resort. `os.path.exists` and
 `shutil.which` are oracles: the set of paths that exist and a map from
 basename to what the search-path lookup returns.
 */
module Engines {
  import opened Wrappers
  import opened Text
  import opened Paths

  /** The supported engines, each mapped to its executable basename. */
  const LatexEngines: map<string, string> :=
    map["pdflatex" := "pdflatex", "xelatex" := "xelatex", "lualatex" := "lualatex"]

  /** The basename used for any name the table does not know. */
  const DefaultEngine: string := "pdflatex"

  /** Installation directories probed before the search path, in priority order. */
  const CommonPaths: seq<string> := [
    "/Library/TeX/texbin",
    "/usr/local/texlive/2024/bin/universal-darwin",
    "/usr/local/texlive/2023/bin/universal-darwin"
  ]

  /** `LATEX_ENGINES.get(name, 'pdflatex')`. */
  function EngineBasename(name: string): (b: string)
    ensures b in LatexEngines.Values
    ensures name in LatexEngines <==> b == name
    ensures name !in LatexEngines ==> b == DefaultEngine
  {
    assert LatexEngines[DefaultEngine] == DefaultEngine;
    if name in LatexEngines then LatexEngines[name] else DefaultEngine
  }

  /** The paths probed for engine `name`, one per common directory, in order. */
  function Probes(name: string): (ps: seq<string>)
    ensures |ps| == |CommonPaths|
    ensures forall i :: 0 <= i < |ps| ==> StartsWith(ps[i], CommonPaths[i])
    ensures forall i :: 0 <= i < |ps| ==> EndsWith(ps[i], "/" + EngineBasename(name))
  {
    var sb := "/" + EngineBasename(name);
    ConcatAffixes(CommonPaths[0], sb);
    ConcatAffixes(CommonPaths[1], sb);
    ConcatAffixes(CommonPaths[2], sb);
    [CommonPaths[0] + sb, CommonPaths[1] + sb, CommonPaths[2] + sb]
  }

  /** Each probed path is `os.path.join(directory, basename)`, and is absolute. */
  lemma ProbesAreJoins(name: string)
    ensures forall i :: 0 <= i < |CommonPaths| ==> Probes(name)[i] == Join(CommonPaths[i], EngineBasename(name))
    ensures forall i :: 0 <= i < |CommonPaths| ==> IsAbsolute(Probes(name)[i])
  {
    var b := EngineBasename(name);
    assert b == "pdflatex" || b == "xelatex" || b == "lualatex";
    assert !IsAbsolute(b) by {
      assert b[..1] == [b[0]] && b[0] != '/';
    }
    forall i | 0 <= i < |CommonPaths|
      ensures Probes(name)[i] == Join(CommonPaths[i], b) && IsAbsolute(Probes(name)[i])
    {
      var d := CommonPaths[i];
      assert EndsInName(d) && IsAbsolute(d) by {
        assert d[..1] == [d[0]] && d[0] == '/';
      }
      JoinUnderAbsoluteDir(d, b);
    }
  }

  /** `shutil.which(basename)`, read from the search-path oracle. */
  function Which(onPath: map<string, string>, basename: string): (r: Option<string>)
    ensures r.Some? <==> basename in onPath
    ensures r.Some? ==> r.value == onPath[basename]
  {
    if basename in onPath then Some(onPath[basename]) else None
  }

  /** Python truthiness of an optional string: only `None` and `""` are false. */
  predicate Truthy(o: Option<string>)
    ensures !Truthy(o) <==> o == None || o == Some("")
  {
    o.Some? && o.value != ""
  }

  /** Index of the first of `paths[k..]` that exists, if any. */
  function FirstHit(paths: seq<string>, existing: set<string>, k: nat): (r: Option<nat>)
    requires k <= |paths|
    ensures r.None? <==> forall i :: k <= i < |paths| ==> paths[i] !in existing
    ensures r.Some? ==> k <= r.value < |paths| && paths[r.value] in existing
    ensures r.Some? ==> forall j :: k <= j < r.value ==> paths[j] !in existing
    decreases |paths| - k
  {
    if k == |paths| then None
    else if paths[k] in existing then Some(k)
    else FirstHit(paths, existing, k + 1)
  }

  /**
   `find_latex_engine(name)`: the first common directory holding the
   engine's basename wins; only when none does is the search-path lookup
   consulted, and an empty lookup result counts as no result.
   */
  function FindLatexEngine(name: string, existing: set<string>, onPath: map<string, string>): (r: Option<string>)
    ensures r.None? <==>
              (forall i :: 0 <= i < |CommonPaths| ==> Probes(name)[i] !in existing)
              && !Truthy(Which(onPath, EngineBasename(name)))
    ensures r.Some? && r != Which(onPath, EngineBasename(name)) ==> r.value in Probes(name)
    ensures (forall i :: 0 <= i < |CommonPaths| ==> Probes(name)[i] !in existing)
            && Truthy(Which(onPath, EngineBasename(name)))
            ==> r == Which(onPath, EngineBasename(name))
    ensures r.Some? ==> r.value != ""
  {
    var probes := Probes(name);
    match FirstHit(probes, existing, 0)
    case Some(i) => Some(probes[i])
    case None =>
      var found := Which(onPath, EngineBasename(name));
      if Truthy(found) then found else None
  }

  /** `paths[i]` exists and is the first of `paths` that does. */
  predicate IsFirstHit(paths: seq<string>, existing: set<string>, i: nat) {
    i < |paths| && paths[i] in existing && forall j :: 0 <= j < i ==> paths[j] !in existing
  }

  /** The first common directory that holds the engine is the one returned. */
  lemma FirstCommonHitWins(name: string, existing: set<string>, onPath: map<string, string>, i: nat)
    requires IsFirstHit(Probes(name), existing, i)
    ensures FindLatexEngine(name, existing, onPath) == Some(Probes(name)[i])
  {
    var hit := FirstHit(Probes(name), existing, 0);
    assert Probes(name)[i] in existing;
  }

  /** The three probed paths are pairwise different. */
  lemma ProbesDistinct(name: string, i: nat, j: nat)
    requires i < |CommonPaths| && j < |CommonPaths| && i != j
    ensures Probes(name)[i] != Probes(name)[j]
  {
    var ps := Probes(name);
    if {i, j} == {1, 2} {
      assert ps[1][22] != ps[2][22];
    } else {
      assert |ps[i]| != |ps[j]|;
    }
  }

  /** A later directory's path is returned only if every earlier directory misses. */
  lemma LaterDirectoryOnlyAfterEarlierMisses(name: string, existing: set<string>, onPath: map<string, string>, i: nat)
    requires i < |CommonPaths|
    requires FindLatexEngine(name, existing, onPath) == Some(Probes(name)[i])
    ensures forall j :: 0 <= j < i ==> Probes(name)[j] !in existing
  {
    var hit := FirstHit(Probes(name), existing, 0);
    if hit.Some? && hit.value != i {
      ProbesDistinct(name, hit.value, i);
    }
  }

  /** The search-path result is returned only when no common directory holds the engine. */
  lemma SearchPathOnlyAfterAllMiss(name: string, existing: set<string>, onPath: map<string, string>)
    requires FindLatexEngine(name, existing, onPath).Some?
    requires forall i :: 0 <= i < |CommonPaths| ==> FindLatexEngine(name, existing, onPath).value != Probes(name)[i]
    ensures forall i :: 0 <= i < |CommonPaths| ==> Probes(name)[i] !in existing
    ensures FindLatexEngine(name, existing, onPath) == Which(onPath, EngineBasename(name))
  {
  }

  /** An unknown engine name is resolved exactly as the default one. */
  lemma UnknownEngineActsAsDefault(name: string, existing: set<string>, onPath: map<string, string>)
    requires name !in LatexEngines
    ensures FindLatexEngine(name, existing, onPath) == FindLatexEngine(DefaultEngine, existing, onPath)
  {
  }
}
