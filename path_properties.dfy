/**
 What the paths of `path_finder` are: the successor search finds the first
 level in the window, every path is a chain of steps that ends on the ground
 state, the paths are exactly the walks from all (level, gamma) starts in
 order, and a walk that reaches a level without a way down never ends.
 */
module PathProperties {
  import opened Builtins
  import opened Extractor
  import opened Reconstructor

  // ---------------------------------------------------------------- find_next_level

  /** The sentinel is no decimal, so it is never one of the levels `find_next_level` searches. */
  lemma NoLevelIsNotDecimal()
    ensures !IsDecimal(NO_LEVEL)
  {
    LetterIsNotDecimal(NO_LEVEL);
  }

  /**
   `find_next_level` returns the first level in the window: when it returns a
   level, that level sits at some index `i` in the window and no level before
   `i` does.
   */
  lemma {:induction false} FindNextFirst(level: string, gamma: string, levels: seq<string>, eps: real)
    requires FindNext(level, gamma, levels, eps) != NO_LEVEL
    ensures exists i :: 0 <= i < |levels| && levels[i] == FindNext(level, gamma, levels, eps)
                     && InWindow(levels[i], level, gamma, eps)
                     && (forall j :: 0 <= j < i ==> !InWindow(levels[j], level, gamma, eps))
    decreases |levels|
  {
    if InWindow(levels[0], level, gamma, eps) {
      assert levels[0] == FindNext(level, gamma, levels, eps);
    } else {
      var rest := levels[1..];
      FindNextFirst(level, gamma, rest, eps);
      var i :| 0 <= i < |rest| && rest[i] == FindNext(level, gamma, rest, eps)
               && InWindow(rest[i], level, gamma, eps)
               && (forall j :: 0 <= j < i ==> !InWindow(rest[j], level, gamma, eps));
      forall j | 0 <= j < i + 1
        ensures !InWindow(levels[j], level, gamma, eps)
      {
        if j > 0 {
          assert levels[j] == rest[j - 1];
        }
      }
      assert levels[i + 1] == rest[i] == FindNext(level, gamma, levels, eps);
    }
  }

  /** `find_next_level` returns the sentinel exactly when no level lies in the window. */
  lemma {:induction false} FindNextNone(level: string, gamma: string, levels: seq<string>, eps: real)
    requires AllDecimal(levels)
    ensures FindNext(level, gamma, levels, eps) == NO_LEVEL <==>
      forall x :: x in levels ==> !InWindow(x, level, gamma, eps)
    decreases |levels|
  {
    if levels != [] {
      NoLevelIsNotDecimal();
      assert levels[0] in levels;
      var rest := levels[1..];
      assert forall x :: x in rest ==> x in levels;
      FindNextNone(level, gamma, rest, eps);
      assert forall x :: x in levels ==> x == levels[0] || x in rest;
    }
  }

  // ---------------------------------------------------------------- the shape of a path

  /** Entries alternate: "L" + level at even positions, "G" + gamma at odd ones. */
  predicate Alternates(p: seq<string>) {
    forall i :: 0 <= i < |p| ==> |p[i]| > 0 && p[i][0] == (if i % 2 == 0 then 'L' else 'G')
  }

  /**
   The step from the entry `from` ("L" + level) through the entry `via`
   ("G" + gamma) to the entry `to`: the level emits the gamma, and `to` names
   the level `find_next_level` finds with the default tolerance.
   */
  predicate IsStep(levels: seq<string>, t: GammaTable, from: string, via: string, to: string) {
    && |from| > 0 && |via| > 0
    && Emits(t, from[1..], via[1..])
    && to == "L" + FindNext(from[1..], via[1..], levels, DEFAULT_EPS)
  }

  /** Every step of `p` from entry `from` on is a step of the walk. */
  predicate StepsFrom(levels: seq<string>, t: GammaTable, p: seq<string>, from: nat) {
    forall i :: from <= i && i + 2 < |p| && i % 2 == 0 ==> IsStep(levels, t, p[i], p[i + 1], p[i + 2])
  }

  /** An odd-length alternating path whose every step from entry `from` on is a step of the walk. */
  predicate IsChain(levels: seq<string>, t: GammaTable, p: seq<string>, from: nat) {
    |p| % 2 == 1 && Alternates(p) && StepsFrom(levels, t, p, from)
  }

  /** The walk stands on the level its path ends with. */
  predicate EndsOn(p: seq<string>, nlvl: string) {
    |p| > 0 && p[|p| - 1] == "L" + nlvl
  }

  /** Two more entries, a gamma and a level, keep an odd-length path alternating. */
  lemma AlternatesStep(p: seq<string>, gam: string, next: string)
    requires |p| % 2 == 1 && Alternates(p)
    ensures |p + ["G" + gam, "L" + next]| % 2 == 1 && Alternates(p + ["G" + gam, "L" + next])
  {
    var q := p + ["G" + gam, "L" + next];
    TagTail("G", gam);
    TagTail("L", next);
    forall j | 0 <= j < |q|
      ensures |q[j]| > 0 && q[j][0] == (if j % 2 == 0 then 'L' else 'G')
    {
      if j < |p| {
        assert q[j] == p[j];
      }
    }
  }

  /** An even index below the last of an odd number of entries is at least two below it. */
  lemma EvenBelowOdd(j: int, n: int)
    requires j % 2 == 0 && n % 2 == 1 && j < n - 1
    ensures j + 2 < n
  {
  }

  /** An odd index below an odd number of entries is not the last one. */
  lemma OddBelowOdd(i: int, n: int)
    requires i % 2 == 1 && n % 2 == 1 && i < n
    ensures i + 1 < n
  {
  }

  /** The steps of `p` stay steps when two entries are appended, and the new step at the end joins them. */
  lemma StepsExtend(levels: seq<string>, t: GammaTable, p: seq<string>, from: nat, gam: string, next: string)
    requires |p| % 2 == 1 && StepsFrom(levels, t, p, from)
    requires IsStep(levels, t, p[|p| - 1], "G" + gam, "L" + next)
    ensures StepsFrom(levels, t, p + ["G" + gam, "L" + next], from)
  {
    var q := p + ["G" + gam, "L" + next];
    forall j | from <= j && j + 2 < |q| && j % 2 == 0
      ensures IsStep(levels, t, q[j], q[j + 1], q[j + 2])
    {
      if j < |p| - 1 {
        EvenBelowOdd(j, |p|);
        assert q[j] == p[j] && q[j + 1] == p[j + 1] && q[j + 2] == p[j + 2];
      } else {
        assert q[j] == p[|p| - 1] && q[j + 1] == "G" + gam && q[j + 2] == "L" + next;
      }
    }
  }

  /** One gamma step keeps a chain a chain. */
  lemma StepChain(levels: seq<string>, t: GammaTable, p: seq<string>, from: nat, n: string, gam: string)
    requires IsChain(levels, t, p, from) && EndsOn(p, n) && Emits(t, n, gam)
    ensures var next := FindNext(n, gam, levels, DEFAULT_EPS);
      IsChain(levels, t, p + ["G" + gam, "L" + next], from) && EndsOn(p + ["G" + gam, "L" + next], next)
  {
    var next := FindNext(n, gam, levels, DEFAULT_EPS);
    var q := p + ["G" + gam, "L" + next];
    var i := |p| - 1;
    AlternatesStep(p, gam, next);
    TagTail("L", n);
    TagTail("G", gam);
    assert IsStep(levels, t, p[i], "G" + gam, "L" + next);
    StepsExtend(levels, t, p, from, gam, next);
  }

  /** A pass keeps a chain a chain, extends it, and leaves the walk on the level the path ends with. */
  lemma {:induction false} PassChain(levels: seq<string>, t: GammaTable, n: string, p: seq<string>, c: nat, from: nat)
    requires c <= |t.order| && IsChain(levels, t, p, from) && EndsOn(p, n)
    ensures var r := Pass(levels, t, n, p, c);
      p <= r.1 && IsChain(levels, t, r.1, from) && EndsOn(r.1, r.0)
    decreases c
  {
    if c == 0 {
      PrefixAppend(p, []);
      assert p + [] == p;
    } else {
      PassChain(levels, t, n, p, c - 1, from);
      var (m, q) := Pass(levels, t, n, p, c - 1);
      var gam := t.order[c - 1];
      if Emits(t, m, gam) {
        StepChain(levels, t, q, from, m, gam);
        PrefixAppend(q, ["G" + gam, "L" + FindNext(m, gam, levels, DEFAULT_EPS)]);
        PrefixTrans(p, q, Pass(levels, t, n, p, c).1);
      }
    }
  }

  /** A walk that ends extends its path to a chain that ends on the ground state. */
  lemma {:induction false} WalkChain(levels: seq<string>, t: GammaTable, n: string, p: seq<string>, fuel: nat, from: nat)
    requires IsChain(levels, t, p, from) && EndsOn(p, n)
    ensures Walk(levels, t, n, p, fuel).Some? ==>
      var q := Walk(levels, t, n, p, fuel).value;
      p <= q && IsChain(levels, t, q, from) && EndsOn(q, GROUND_STATE)
    decreases fuel
  {
    if n == GROUND_STATE {
      PrefixAppend(p, []);
      assert p + [] == p;
    } else if fuel > 0 {
      var (m, q) := Pass(levels, t, n, p, |t.order|);
      PassChain(levels, t, n, p, |t.order|, from);
      WalkChain(levels, t, m, q, fuel - 1, from);
      if Walk(levels, t, n, p, fuel).Some? {
        PrefixTrans(p, q, Walk(levels, t, n, p, fuel).value);
      }
    }
  }

  /**
   The shape of a finished path from the start `s`: "L" + level, "G" + gamma,
   "L" + the level found with tolerance `eps`, then a chain of default-tolerance
   steps, ending on "L0.0".
   */
  predicate Shaped(levels: seq<string>, t: GammaTable, eps: real, s: (string, string), p: seq<string>) {
    && |p| >= 3
    && p[0] == "L" + s.0 && p[1] == "G" + s.1 && p[2] == "L" + FindNext(s.0, s.1, levels, eps)
    && IsChain(levels, t, p, 2) && p[|p| - 1] == "L" + GROUND_STATE
  }

  /**
   A path `path_finder` finishes starts "L" + level, "G" + gamma, "L" + the
   level found with the caller's tolerance, alternates level and gamma
   entries, takes every later step with the default tolerance through a gamma
   the current level emits, and ends on "L0.0".
   */
  lemma PathFromShape(levels: seq<string>, t: GammaTable, eps: real, s: (string, string), fuel: nat)
    requires IsStart(levels, t, s)
    ensures PathFrom(levels, t, eps, s, fuel).Some? ==> Shaped(levels, t, eps, s, PathFrom(levels, t, eps, s, fuel).value)
  {
    var first := FindNext(s.0, s.1, levels, eps);
    var p := ["L" + s.0, "G" + s.1, "L" + first];
    TagTail("L", s.0);
    TagTail("G", s.1);
    TagTail("L", first);
    assert Alternates(p) by {
      assert p[0][0] == 'L' && p[1][0] == 'G' && p[2][0] == 'L';
      forall j | 0 <= j < 3
        ensures |p[j]| > 0 && p[j][0] == (if j % 2 == 0 then 'L' else 'G')
      {
        assert j == 0 || j == 1 || j == 2;
      }
    }
    assert StepsFrom(levels, t, p, 2);
    WalkChain(levels, t, first, p, fuel, 2);
    if PathFrom(levels, t, eps, s, fuel).Some? {
      var q := PathFrom(levels, t, eps, s, fuel).value;
      assert p <= q;
      assert q[..3] == p;
      assert q[0] == p[0] && q[1] == p[1] && q[2] == p[2];
    }
  }

  /**
   Every step of a finished path lands inside its window: the level after
   "L" + level, "G" + gamma lies within `eps` of level - gamma on the first
   step and within DEFAULT_EPS on every later one. No step of a finished path
   reaches the sentinel, since no gamma is recorded under it.
   */
  lemma StepsInWindow(levels: seq<string>, t: GammaTable, eps: real, s: (string, string), p: seq<string>, i: nat)
    requires Walkable(levels, t) && Shaped(levels, t, eps, s, p)
    requires i % 2 == 0 && i + 2 < |p|
    ensures InWindow(p[i + 2][1..], p[i][1..], p[i + 1][1..], if i == 0 then eps else DEFAULT_EPS)
  {
    var e := if i == 0 then eps else DEFAULT_EPS;
    var r := FindNext(p[i][1..], p[i + 1][1..], levels, e);
    if i == 0 {
      TagTail("L", s.0);
      TagTail("G", s.1);
    } else {
      assert IsStep(levels, t, p[i], p[i + 1], p[i + 2]);
    }
    assert p[i + 2] == "L" + r;
    TagTail("L", r);
    if i + 2 == |p| - 1 {
      TagTail("L", GROUND_STATE);
      assert r == GROUND_STATE;
    } else {
      EvenBelowOdd(i + 2, |p|);
      assert IsStep(levels, t, p[i + 2], p[i + 3], p[i + 4]);
      assert t.origin[p[i + 3][1..]] == r;
    }
    FindNextFirst(p[i][1..], p[i + 1][1..], levels, e);
  }

  // ---------------------------------------------------------------- walks that end and walks that do not

  /** No gamma of the table was recorded under `n`. */
  predicate DeadEnd(t: GammaTable, n: string) {
    forall g :: g in t.origin ==> t.origin[g] != n
  }

  /** A pass from a level that emits nothing changes nothing. */
  lemma {:induction false} PassStays(levels: seq<string>, t: GammaTable, n: string, p: seq<string>, c: nat)
    requires c <= |t.order| && DeadEnd(t, n)
    ensures Pass(levels, t, n, p, c) == (n, p)
    decreases c
  {
    if c > 0 {
      PassStays(levels, t, n, p, c - 1);
    }
  }

  /** A walk that stands on a level other than "0.0" that emits nothing never ends. */
  lemma {:induction false} DeadEndHangs(levels: seq<string>, t: GammaTable, n: string, p: seq<string>, fuel: nat)
    requires n != GROUND_STATE && DeadEnd(t, n)
    ensures Walk(levels, t, n, p, fuel) == None
    decreases fuel
  {
    if fuel > 0 {
      PassStays(levels, t, n, p, |t.order|);
      DeadEndHangs(levels, t, n, p, fuel - 1);
    }
  }

  /** A walk that reaches the sentinel "no level" never ends. */
  lemma NoLevelHangs(levels: seq<string>, t: GammaTable, p: seq<string>, fuel: nat)
    requires Walkable(levels, t)
    ensures Walk(levels, t, NO_LEVEL, p, fuel) == None
  {
    DeadEndHangs(levels, t, NO_LEVEL, p, fuel);
  }

  /** Where a pass leads depends on the level it starts from, not on the path so far. */
  lemma {:induction false} PassLevel(levels: seq<string>, t: GammaTable, n: string, p: seq<string>, p': seq<string>, c: nat)
    requires c <= |t.order|
    ensures Pass(levels, t, n, p, c).0 == Pass(levels, t, n, p', c).0
    decreases c
  {
    if c > 0 {
      PassLevel(levels, t, n, p, p', c - 1);
    }
  }

  /** The level a walk from `n` stands on after `k` full passes over the gamma table. */
  function PassIter(levels: seq<string>, t: GammaTable, n: string, k: nat): string
    decreases k
  {
    if k == 0 then n else Pass(levels, t, PassIter(levels, t, n, k - 1), [], |t.order|).0
  }

  /**
   The levels a walk from `n` stands on after 0 to `k` - 1 passes are not
   "0.0", and after `k` passes it is back on `n`: the walk goes round a cycle.
   */
  predicate Cycle(levels: seq<string>, t: GammaTable, n: string, k: nat) {
    && k >= 1 && PassIter(levels, t, n, k) == n
    && forall j :: 0 <= j < k ==> PassIter(levels, t, n, j) != GROUND_STATE
  }

  /** A walk standing anywhere on a cycle never ends. */
  lemma {:induction false} CycleHangsAt(levels: seq<string>, t: GammaTable, n: string, k: nat, j: nat, p: seq<string>, fuel: nat)
    requires Cycle(levels, t, n, k) && j < k
    ensures Walk(levels, t, PassIter(levels, t, n, j), p, fuel) == None
    decreases fuel
  {
    var m := PassIter(levels, t, n, j);
    if fuel > 0 {
      var next := Pass(levels, t, m, p, |t.order|);
      PassLevel(levels, t, m, p, [], |t.order|);
      assert next.0 == PassIter(levels, t, n, j + 1);
      if j + 1 < k {
        CycleHangsAt(levels, t, n, k, j + 1, next.1, fuel - 1);
      } else {
        CycleHangsAt(levels, t, n, k, 0, next.1, fuel - 1);
      }
    }
  }

  /**
   A walk from a level that some number of full passes lead back to, without
   passing through "0.0" on the way, never ends: `while nlvl != '0.0'` loops
   forever on a cycle, however many passes it spans.
   */
  lemma CycleHangs(levels: seq<string>, t: GammaTable, n: string, k: nat, p: seq<string>, fuel: nat)
    requires Cycle(levels, t, n, k)
    ensures Walk(levels, t, n, p, fuel) == None
  {
    CycleHangsAt(levels, t, n, k, 0, p, fuel);
  }

  /** More fuel does not change a walk that ends. */
  lemma {:induction false} WalkMoreFuel(levels: seq<string>, t: GammaTable, n: string, p: seq<string>, fuel: nat, more: nat)
    requires fuel <= more && Walk(levels, t, n, p, fuel).Some?
    ensures Walk(levels, t, n, p, more) == Walk(levels, t, n, p, fuel)
    decreases fuel
  {
    if n != GROUND_STATE {
      var next := Pass(levels, t, n, p, |t.order|);
      WalkMoreFuel(levels, t, next.0, next.1, fuel - 1, more - 1);
    }
  }

  // ---------------------------------------------------------------- the paths of path_finder

  /** The starts `path_finder` takes from `lvl` among the first `b` gammas, in table order. */
  function StartsAt(t: GammaTable, lvl: string, b: nat): seq<(string, string)>
    requires b <= |t.order|
    decreases b
  {
    if b == 0 then []
    else StartsAt(t, lvl, b - 1) + if Emits(t, lvl, t.order[b - 1]) then [(lvl, t.order[b - 1])] else []
  }

  /** The starts of the first `a` levels, level by level. */
  function StartsUpTo(levels: seq<string>, t: GammaTable, a: nat): seq<(string, string)>
    requires a <= |levels|
    decreases a
  {
    if a == 0 then [] else StartsUpTo(levels, t, a - 1) + StartsAt(t, levels[a - 1], |t.order|)
  }

  /** Every (level, gamma) start, ordered by `levels` first and by the gamma table second. */
  function Starts(levels: seq<string>, t: GammaTable): seq<(string, string)> {
    StartsUpTo(levels, t, |levels|)
  }

  /** The walks `walk` takes from the starts `ss`, or None when one of them does not end. */
  function Collect(walk: ((string, string)) -> Option<seq<string>>, ss: seq<(string, string)>): Option<seq<seq<string>>>
    decreases |ss|
  {
    if ss == [] then Some([])
    else
      var before := Collect(walk, ss[..|ss| - 1]);
      var walked := walk(ss[|ss| - 1]);
      if before.None? || walked.None? then None else Some(before.value + [walked.value])
  }

  /** Appending one start to a run of starts, and taking it off again. */
  lemma StartsSnoc(ss: seq<(string, string)>, s: (string, string))
    ensures (ss + [s])[..|ss|] == ss && (ss + [s])[|ss|] == s
  {
  }

  /** Appending to a run of starts is associative. */
  lemma StartsAssoc(a: seq<(string, string)>, b: seq<(string, string)>, c: seq<(string, string)>)
    ensures (a + b) + c == a + (b + c)
  {
  }

  /** Collecting one more start: its walk is appended, or everything is lost when it does not end. */
  lemma CollectSnoc(walk: ((string, string)) -> Option<seq<string>>, ss: seq<(string, string)>, s: (string, string))
    ensures var before := Collect(walk, ss);
      Collect(walk, ss + [s]) == if before.None? || walk(s).None? then None else Some(before.value + [walk(s).value])
  {
    StartsSnoc(ss, s);
  }

  /** Collect's result is None exactly when the walk from some start does not end. */
  lemma {:induction false} CollectNone(walk: ((string, string)) -> Option<seq<string>>, ss: seq<(string, string)>)
    ensures Collect(walk, ss).None? <==> exists k :: 0 <= k < |ss| && walk(ss[k]).None?
    decreases |ss|
  {
    if ss != [] {
      var init := ss[..|ss| - 1];
      CollectNone(walk, init);
      if Collect(walk, ss).None? {
        if Collect(walk, init).None? {
          var k :| 0 <= k < |init| && walk(init[k]).None?;
          assert ss[k] == init[k];
        } else {
          assert walk(ss[|ss| - 1]).None?;
        }
      } else {
        forall k | 0 <= k < |ss|
          ensures walk(ss[k]).Some?
        {
          if k < |init| {
            assert ss[k] == init[k];
          }
        }
      }
    }
  }

  /** When Collect has a result, it holds the walk from every start, in the order of the starts. */
  lemma {:induction false} CollectValues(walk: ((string, string)) -> Option<seq<string>>, ss: seq<(string, string)>)
    requires Collect(walk, ss).Some?
    ensures |Collect(walk, ss).value| == |ss|
    ensures forall k :: 0 <= k < |ss| ==> walk(ss[k]) == Some(Collect(walk, ss).value[k])
    decreases |ss|
  {
    if ss != [] {
      var init := ss[..|ss| - 1];
      CollectValues(walk, init);
      var before := Collect(walk, init).value;
      var ps := Collect(walk, ss).value;
      forall k | 0 <= k < |ss|
        ensures walk(ss[k]) == Some(ps[k])
      {
        if k < |init| {
          assert ss[k] == init[k] && ps[k] == before[k];
        }
      }
    }
  }

  /** A gamma the level emits: the inner loop appends its walk, as collecting its start does. */
  lemma LevelPathsEmit(walk: ((string, string)) -> Option<seq<string>>, t: GammaTable, lvl: string, b: nat,
                       done: seq<(string, string)>, found: seq<seq<string>>)
    requires 0 < b <= |t.order| && Emits(t, lvl, t.order[b - 1])
    requires LevelPaths(walk, t, lvl, b - 1, found) == Collect(walk, done + StartsAt(t, lvl, b - 1))
    ensures LevelPaths(walk, t, lvl, b, found) == Collect(walk, done + StartsAt(t, lvl, b))
  {
    var earlier, g := StartsAt(t, lvl, b - 1), t.order[b - 1];
    assert StartsAt(t, lvl, b) == earlier + [(lvl, g)];
    StartsAssoc(done, earlier, [(lvl, g)]);
    CollectSnoc(walk, done + earlier, (lvl, g));
  }

  /** A gamma the level does not emit: neither the inner loop nor the starts change. */
  lemma LevelPathsSkip(walk: ((string, string)) -> Option<seq<string>>, t: GammaTable, lvl: string, b: nat,
                       done: seq<(string, string)>, found: seq<seq<string>>)
    requires 0 < b <= |t.order| && !Emits(t, lvl, t.order[b - 1])
    requires LevelPaths(walk, t, lvl, b - 1, found) == Collect(walk, done + StartsAt(t, lvl, b - 1))
    ensures LevelPaths(walk, t, lvl, b, found) == Collect(walk, done + StartsAt(t, lvl, b))
  {
    var earlier := StartsAt(t, lvl, b - 1);
    assert StartsAt(t, lvl, b) == earlier + [];
    StartsAssoc(done, earlier, []);
    assert (done + earlier) + [] == done + earlier;
  }

  /** The inner loop of `path_finder` over the first `b` gammas appends the walks from the starts of `lvl` among them. */
  lemma {:induction false} LevelPathsCollect(walk: ((string, string)) -> Option<seq<string>>, t: GammaTable, lvl: string,
                                             b: nat, done: seq<(string, string)>, found: seq<seq<string>>)
    requires b <= |t.order| && Collect(walk, done) == Some(found)
    ensures LevelPaths(walk, t, lvl, b, found) == Collect(walk, done + StartsAt(t, lvl, b))
    decreases b
  {
    if b == 0 {
      assert done + [] == done;
    } else {
      LevelPathsCollect(walk, t, lvl, b - 1, done, found);
      if Emits(t, lvl, t.order[b - 1]) {
        LevelPathsEmit(walk, t, lvl, b, done, found);
      } else {
        LevelPathsSkip(walk, t, lvl, b, done, found);
      }
    }
  }

  /** Once the walk from one start does not end, no start after it brings the collection back. */
  lemma CollectLost(walk: ((string, string)) -> Option<seq<string>>, ss: seq<(string, string)>, more: seq<(string, string)>)
    requires Collect(walk, ss).None?
    ensures Collect(walk, ss + more).None?
  {
    CollectNone(walk, ss);
    CollectNone(walk, ss + more);
    var k :| 0 <= k < |ss| && walk(ss[k]).None?;
    assert (ss + more)[k] == ss[k];
  }

  /** The outer loop of `path_finder` over the first `a` levels collects the walks from their starts. */
  lemma {:induction false} PathsUpToCollect(walk: ((string, string)) -> Option<seq<string>>, levels: seq<string>,
                                            t: GammaTable, a: nat)
    requires a <= |levels|
    ensures PathsUpTo(walk, levels, t, a) == Collect(walk, StartsUpTo(levels, t, a))
    decreases a
  {
    if a > 0 {
      PathsUpToCollect(walk, levels, t, a - 1);
      var done, lvl := StartsUpTo(levels, t, a - 1), levels[a - 1];
      var before := PathsUpTo(walk, levels, t, a - 1);
      assert StartsUpTo(levels, t, a) == done + StartsAt(t, lvl, |t.order|);
      if before.None? {
        CollectLost(walk, done, StartsAt(t, lvl, |t.order|));
      } else {
        LevelPathsCollect(walk, t, lvl, |t.order|, done, before.value);
      }
    }
  }

  /** `path_finder` collects the walks from all starts, level by level and gamma by gamma. */
  lemma AllPathsCollect(levels: seq<string>, t: GammaTable, eps: real, fuel: nat)
    ensures AllPaths(levels, t, eps, fuel) == Collect(Walker(levels, t, eps, fuel), Starts(levels, t))
  {
    PathsUpToCollect(Walker(levels, t, eps, fuel), levels, t, |levels|);
  }

  /** The starts of `lvl` among the first `b` gammas are the gammas among them that `lvl` emits. */
  lemma {:induction false} StartsAtSpec(t: GammaTable, lvl: string, b: nat, s: (string, string))
    requires b <= |t.order|
    ensures s in StartsAt(t, lvl, b) <==> s.0 == lvl && s.1 in t.order[..b] && Emits(t, lvl, s.1)
    decreases b
  {
    if b > 0 {
      StartsAtSpec(t, lvl, b - 1, s);
      TakeSnoc(t.order, b - 1);
    }
  }

  /** The starts of the first `a` levels are the pairs of one of them and a gamma of the table it emits. */
  lemma {:induction false} StartsUpToSpec(levels: seq<string>, t: GammaTable, a: nat, s: (string, string))
    requires a <= |levels|
    ensures s in StartsUpTo(levels, t, a) <==> s.0 in levels[..a] && s.1 in t.order && Emits(t, s.0, s.1)
    decreases a
  {
    if a > 0 {
      StartsUpToSpec(levels, t, a - 1, s);
      StartsAtSpec(t, levels[a - 1], |t.order|, s);
      TakeSnoc(levels, a - 1);
      assert t.order[..|t.order|] == t.order;
    }
  }

  /** With a well-formed table, the starts are exactly the (level, emitted gamma) pairs. */
  lemma StartsSpec(levels: seq<string>, t: GammaTable, s: (string, string))
    requires t.Valid()
    ensures s in Starts(levels, t) <==> IsStart(levels, t, s)
  {
    StartsUpToSpec(levels, t, |levels|, s);
    assert levels[..|levels|] == levels;
  }

  /** `path_finder` does not finish exactly when the walk from one of its starts does not end. */
  lemma AllPathsNone(levels: seq<string>, t: GammaTable, eps: real, fuel: nat)
    requires t.Valid()
    ensures AllPaths(levels, t, eps, fuel).None? <==>
      exists s :: IsStart(levels, t, s) && PathFrom(levels, t, eps, s, fuel).None?
  {
    var walk, ss := Walker(levels, t, eps, fuel), Starts(levels, t);
    AllPathsCollect(levels, t, eps, fuel);
    CollectNone(walk, ss);
    if AllPaths(levels, t, eps, fuel).None? {
      var k :| 0 <= k < |ss| && walk(ss[k]).None?;
      StartsSpec(levels, t, ss[k]);
      assert PathFrom(levels, t, eps, ss[k], fuel).None?;
    } else {
      forall s | IsStart(levels, t, s)
        ensures PathFrom(levels, t, eps, s, fuel).Some?
      {
        StartsSpec(levels, t, s);
        var k :| 0 <= k < |ss| && ss[k] == s;
        assert walk(ss[k]).Some?;
      }
    }
  }

  /**
   When `path_finder` finishes, it returns one path per start, in the order of
   the starts: by level first, by the gamma table second.
   */
  lemma AllPathsValues(levels: seq<string>, t: GammaTable, eps: real, fuel: nat)
    requires AllPaths(levels, t, eps, fuel).Some?
    ensures var ps, ss := AllPaths(levels, t, eps, fuel).value, Starts(levels, t);
      |ps| == |ss| && forall k :: 0 <= k < |ss| ==> PathFrom(levels, t, eps, ss[k], fuel) == Some(ps[k])
  {
    var walk, ss := Walker(levels, t, eps, fuel), Starts(levels, t);
    AllPathsCollect(levels, t, eps, fuel);
    CollectValues(walk, ss);
  }

  /** Every (level, emitted gamma) pair has its walk among the paths `path_finder` returns. */
  lemma AllPathsComplete(levels: seq<string>, t: GammaTable, eps: real, fuel: nat, s: (string, string))
    requires t.Valid() && AllPaths(levels, t, eps, fuel).Some? && IsStart(levels, t, s)
    ensures PathFrom(levels, t, eps, s, fuel).Some?
    ensures PathFrom(levels, t, eps, s, fuel).value in AllPaths(levels, t, eps, fuel).value
  {
    var ss := Starts(levels, t);
    AllPathsValues(levels, t, eps, fuel);
    StartsSpec(levels, t, s);
    var k :| 0 <= k < |ss| && ss[k] == s;
    assert PathFrom(levels, t, eps, ss[k], fuel) == Some(AllPaths(levels, t, eps, fuel).value[k]);
  }

  /**
   Path `k` of `path_finder` starts on a level and a gamma it emits, takes its
   first step with the caller's tolerance and every later one with the default
   tolerance, and ends on the ground state.
   */
  lemma AllPathsShape(levels: seq<string>, t: GammaTable, eps: real, fuel: nat, k: nat)
    requires t.Valid() && AllPaths(levels, t, eps, fuel).Some? && k < |AllPaths(levels, t, eps, fuel).value|
    ensures |Starts(levels, t)| == |AllPaths(levels, t, eps, fuel).value|
    ensures var s := Starts(levels, t)[k];
      IsStart(levels, t, s) && Shaped(levels, t, eps, s, AllPaths(levels, t, eps, fuel).value[k])
  {
    var ps, ss := AllPaths(levels, t, eps, fuel).value, Starts(levels, t);
    AllPathsValues(levels, t, eps, fuel);
    var s := ss[k];
    assert PathFrom(levels, t, eps, s, fuel) == Some(ps[k]);
    assert s in ss;
    StartsSpec(levels, t, s);
    PathFromShape(levels, t, eps, s, fuel);
  }
}
