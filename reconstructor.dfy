/**
 The path reconstructor: `find_next_level` looks for the level that a gamma
 leads to, and `path_finder` walks from every (level, gamma) pair down to the
 level whose energy string is exactly "0.0".

 The walk of `path_finder` need not end. Its model carries `fuel`, the number
 of passes over the gamma table that each walk may take; a walk that would
 need more makes the result `None`.
 */
module Reconstructor {
  import opened Builtins
  import opened Extractor

  datatype Option<T> = None | Some(value: T)

  /** What `find_next_level` returns when no level lies in the window. */
  const NO_LEVEL: string := "no level"
  /** The ground state, recognised by string equality. */
  const GROUND_STATE: string := "0.0"
  /** The default tolerance of `find_next_level`. */
  const DEFAULT_EPS: real := 1.0

  predicate AllDecimal(levels: seq<string>) {
    forall l :: l in levels ==> IsDecimal(l)
  }

  /** `x` lies in the open window of width `2 * eps` around `level - gamma`. */
  predicate InWindow(x: string, level: string, gamma: string, eps: real) {
    var target := Val(level) - Val(gamma);
    target - eps < Val(x) < target + eps
  }

  /** The first entry of `levels` in the window, or NO_LEVEL. */
  function FindNext(level: string, gamma: string, levels: seq<string>, eps: real): (r: string)
    ensures r in levels || r == NO_LEVEL
    decreases |levels|
  {
    if levels == [] then NO_LEVEL
    else if InWindow(levels[0], level, gamma, eps) then levels[0]
    else FindNext(level, gamma, levels[1..], eps)
  }

  /** `find_next_level(level, gamma, levels, eps)`. */
  method FindNextLevel(level: string, gamma: string, levels: seq<string>, eps: real) returns (next: string)
    requires IsDecimal(level) && IsDecimal(gamma) && AllDecimal(levels)
    ensures next == FindNext(level, gamma, levels, eps)
  {
    var nextLevel := Val(level) - Val(gamma);
    for i := 0 to |levels|
      invariant FindNext(level, gamma, levels[i..], eps) == FindNext(level, gamma, levels, eps)
    {
      assert levels[i..][1..] == levels[i + 1..];
      if Val(levels[i]) > nextLevel - eps && Val(levels[i]) < nextLevel + eps {
        return levels[i];
      }
    }
    return NO_LEVEL;
  }

  /**
   What `path_finder` needs for every `float()` it performs to succeed: the
   levels are decimals, every gamma emitted by one of them is a decimal, and
   no gamma is stored under the NO_LEVEL sentinel.
   */
  ghost predicate Walkable(levels: seq<string>, t: GammaTable) {
    && t.Valid()
    && AllDecimal(levels)
    && (forall g :: g in t.origin ==> t.origin[g] != NO_LEVEL)
    && forall g :: g in t.origin && t.origin[g] in levels ==> IsDecimal(g)
  }

  /** `gammas[g] == lvl`: the gamma `g` was recorded under the level `lvl`. */
  predicate Emits(t: GammaTable, lvl: string, g: string) {
    g in t.origin && t.origin[g] == lvl
  }

  /** Where a walk can stand: on a level, or on the sentinel. */
  predicate OnLevel(nlvl: string, levels: seq<string>) {
    nlvl in levels || nlvl == NO_LEVEL
  }

  /**
   One pass of the inner `for gam in gammas` loop, after its first `c` gammas:
   each gamma emitted by the current level moves the walk to the level it
   leads to (tolerance DEFAULT_EPS) and appends "G" + gamma, "L" + level.
   */
  function Pass(levels: seq<string>, t: GammaTable, nlvl: string, path: seq<string>, c: nat)
    : (r: (string, seq<string>))
    requires c <= |t.order|
    ensures OnLevel(nlvl, levels) ==> OnLevel(r.0, levels)
    decreases c
  {
    if c == 0 then (nlvl, path)
    else
      var (n, p) := Pass(levels, t, nlvl, path, c - 1);
      var gam := t.order[c - 1];
      if Emits(t, n, gam) then
        var next := FindNext(n, gam, levels, DEFAULT_EPS);
        (next, p + ["G" + gam, "L" + next])
      else (n, p)
  }

  /** The `while nlvl != '0.0'` loop, allowed `fuel` passes. */
  function Walk(levels: seq<string>, t: GammaTable, nlvl: string, path: seq<string>, fuel: nat)
    : Option<seq<string>>
    decreases fuel
  {
    if nlvl == GROUND_STATE then Some(path)
    else if fuel == 0 then None
    else
      var next := Pass(levels, t, nlvl, path, |t.order|);
      Walk(levels, t, next.0, next.1, fuel - 1)
  }

  lemma WalkStep(levels: seq<string>, t: GammaTable, nlvl: string, path: seq<string>, fuel: nat)
    requires nlvl != GROUND_STATE && fuel > 0
    ensures var next := Pass(levels, t, nlvl, path, |t.order|);
      Walk(levels, t, nlvl, path, fuel) == Walk(levels, t, next.0, next.1, fuel - 1)
  {
  }

  /** The (level, gamma) pairs `path_finder` starts a walk from. */
  predicate IsStart(levels: seq<string>, t: GammaTable, s: (string, string)) {
    s.0 in levels && Emits(t, s.0, s.1)
  }

  /** The path from level `s.0` through gamma `s.1`; only its first step uses `eps`. */
  function PathFrom(levels: seq<string>, t: GammaTable, eps: real, s: (string, string), fuel: nat)
    : Option<seq<string>>
  {
    var first := FindNext(s.0, s.1, levels, eps);
    Walk(levels, t, first, ["L" + s.0, "G" + s.1, "L" + first], fuel)
  }

  /** The walk `path_finder` takes from each start. */
  function Walker(levels: seq<string>, t: GammaTable, eps: real, fuel: nat): ((string, string)) -> Option<seq<string>> {
    s => PathFrom(levels, t, eps, s, fuel)
  }

  /**
   The paths `path_finder`'s inner loop has collected for the level `lvl` after
   its first `b` gammas, starting from the paths `found` of the earlier levels,
   when `walk` is the walk from a start: None once a walk does not end.
   */
  function LevelPaths(walk: ((string, string)) -> Option<seq<string>>, t: GammaTable, lvl: string, b: nat,
                      found: seq<seq<string>>): Option<seq<seq<string>>>
    requires b <= |t.order|
    decreases b
  {
    if b == 0 then Some(found)
    else
      var before := LevelPaths(walk, t, lvl, b - 1, found);
      var g := t.order[b - 1];
      if before.None? || !Emits(t, lvl, g) then before
      else
        var walked := walk((lvl, g));
        if walked.None? then None else Some(before.value + [walked.value])
  }

  /** The paths `path_finder`'s outer loop has collected after its first `a` levels. */
  function PathsUpTo(walk: ((string, string)) -> Option<seq<string>>, levels: seq<string>, t: GammaTable, a: nat)
    : Option<seq<seq<string>>>
    requires a <= |levels|
    decreases a
  {
    if a == 0 then Some([])
    else
      var before := PathsUpTo(walk, levels, t, a - 1);
      if before.None? then None else LevelPaths(walk, t, levels[a - 1], |t.order|, before.value)
  }

  /** The result of `path_finder(levels, gammas, eps)` when no walk needs more than `fuel` passes. */
  function AllPaths(levels: seq<string>, t: GammaTable, eps: real, fuel: nat): Option<seq<seq<string>>> {
    PathsUpTo(Walker(levels, t, eps, fuel), levels, t, |levels|)
  }

  /** On a walkable table, a level a walk stands on and a gamma it emits are decimals `float()` reads. */
  lemma WalkableEmits(levels: seq<string>, t: GammaTable, n: string, g: string)
    requires Walkable(levels, t) && OnLevel(n, levels) && Emits(t, n, g)
    ensures n in levels && IsDecimal(n) && IsDecimal(g)
  {
  }

  /**
   One round of the inner `for gam in gammas` loop of `path_finder`'s walk:
   when the current level emits the `c`-th gamma, the walk moves on through it.
   */
  method FollowGamma(levels: seq<string>, gammas: GammaTable, start: string, prefix: seq<string>, c: nat,
                     nlvl: string, path: seq<string>)
    returns (nlvl': string, path': seq<string>)
    requires Walkable(levels, gammas) && OnLevel(start, levels) && c < |gammas.order|
    requires (nlvl, path) == Pass(levels, gammas, start, prefix, c)
    ensures (nlvl', path') == Pass(levels, gammas, start, prefix, c + 1)
  {
    nlvl', path' := nlvl, path;
    var gam := gammas.order[c];
    assert gam in gammas.origin;
    if gammas.origin[gam] == nlvl {
      WalkableEmits(levels, gammas, nlvl, gam);
      nlvl' := FindNextLevel(nlvl, gam, levels, DEFAULT_EPS);
      path' := path + ["G" + gam, "L" + nlvl'];
    }
  }

  /**
   One pass of the inner `for gam in gammas` loop of `path_finder`'s walk: every
   gamma the current level emits moves the walk on, in table order.
   */
  method WalkPass(levels: seq<string>, gammas: GammaTable, start: string, prefix: seq<string>)
    returns (nlvl: string, path: seq<string>)
    requires Walkable(levels, gammas) && OnLevel(start, levels)
    ensures (nlvl, path) == Pass(levels, gammas, start, prefix, |gammas.order|)
  {
    nlvl, path := start, prefix;
    for c := 0 to |gammas.order|
      invariant (nlvl, path) == Pass(levels, gammas, start, prefix, c)
    {
      nlvl, path := FollowGamma(levels, gammas, start, prefix, c, nlvl, path);
    }
  }

  /**
   The `while nlvl != '0.0'` loop of `path_finder`, allowed `fuel` passes over
   the gamma table: None when the walk needs more.
   */
  method WalkDown(levels: seq<string>, gammas: GammaTable, start: string, prefix: seq<string>, fuel: nat)
    returns (walked: Option<seq<string>>)
    requires Walkable(levels, gammas) && OnLevel(start, levels)
    ensures walked == Walk(levels, gammas, start, prefix, fuel)
  {
    var nlvl, path, left := start, prefix, fuel;
    ghost var goal := Walk(levels, gammas, start, prefix, fuel);
    while nlvl != GROUND_STATE
      invariant OnLevel(nlvl, levels)
      invariant Walk(levels, gammas, nlvl, path, left) == goal
      decreases left
    {
      if left == 0 {
        return None;
      }
      WalkStep(levels, gammas, nlvl, path, left);
      nlvl, path := WalkPass(levels, gammas, nlvl, path);
      left := left - 1;
    }
    return Some(path);
  }

  /** The first step of a walk, from `lvl` through `gamma` with tolerance `eps`, and the rest of it. */
  method WalkFrom(levels: seq<string>, gammas: GammaTable, eps: real, fuel: nat, lvl: string, gamma: string)
    returns (walked: Option<seq<string>>)
    requires Walkable(levels, gammas) && lvl in levels && Emits(gammas, lvl, gamma)
    ensures walked == PathFrom(levels, gammas, eps, (lvl, gamma), fuel)
  {
    var nlvl := FindNextLevel(lvl, gamma, levels, eps);
    walked := WalkDown(levels, gammas, nlvl, ["L" + lvl, "G" + gamma, "L" + nlvl], fuel);
  }

  /**
   One round of the inner `for gamma in gammas` loop of `path_finder`: when
   `lvl` emits the `b`-th gamma, the walk from them is appended to `paths`.
   */
  method VisitGamma(levels: seq<string>, gammas: GammaTable, eps: real, fuel: nat, lvl: string, b: nat,
                    ghost done: seq<seq<string>>, paths: seq<seq<string>>)
    returns (more: Option<seq<seq<string>>>)
    requires Walkable(levels, gammas) && lvl in levels && b < |gammas.order|
    requires LevelPaths(Walker(levels, gammas, eps, fuel), gammas, lvl, b, done) == Some(paths)
    ensures more == LevelPaths(Walker(levels, gammas, eps, fuel), gammas, lvl, b + 1, done)
  {
    var gamma := gammas.order[b];
    assert gamma in gammas.origin;
    if gammas.origin[gamma] == lvl {
      var walked := WalkFrom(levels, gammas, eps, fuel, lvl, gamma);
      if walked.None? {
        return None;
      }
      return Some(paths + [walked.value]);
    }
    return Some(paths);
  }

  /**
   The inner `for gamma in gammas` loop of `path_finder` for the level `lvl`:
   the walk from every gamma `lvl` emits, appended to `done`.
   */
  method WalksFromLevel(levels: seq<string>, gammas: GammaTable, eps: real, fuel: nat, lvl: string,
                        done: seq<seq<string>>)
    returns (found: Option<seq<seq<string>>>)
    requires Walkable(levels, gammas) && lvl in levels
    ensures found == LevelPaths(Walker(levels, gammas, eps, fuel), gammas, lvl, |gammas.order|, done)
  {
    found := Some(done);
    for b := 0 to |gammas.order|
      invariant found == LevelPaths(Walker(levels, gammas, eps, fuel), gammas, lvl, b, done)
    {
      if found.Some? {
        found := VisitGamma(levels, gammas, eps, fuel, lvl, b, done, found.value);
      }
    }
  }

  /** `path_finder(levels, gammas, eps)`, each walk allowed `fuel` passes over the gamma table. */
  method PathFinder(levels: seq<string>, gammas: GammaTable, eps: real, fuel: nat)
    returns (paths: Option<seq<seq<string>>>)
    requires Walkable(levels, gammas)
    ensures paths == AllPaths(levels, gammas, eps, fuel)
  {
    paths := Some([]);
    for a := 0 to |levels|
      invariant paths == PathsUpTo(Walker(levels, gammas, eps, fuel), levels, gammas, a)
    {
      if paths.Some? {
        paths := WalksFromLevel(levels, gammas, eps, fuel, levels[a], paths.value);
      }
    }
  }
}
