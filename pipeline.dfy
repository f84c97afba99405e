/**
 How the parts fit together: the dict `gamma_builder` extracts never holds the
 "no level" sentinel and has only non-empty keys, and so every path
 `path_finder` finishes carries the tags and energies `write_paths` reads.
 */
module Pipeline {
  import opened Builtins
  import opened Extractor
  import opened Reconstructor
  import opened PathProperties
  import opened Serializer

  /** The sentinel holds a space, so no field of a line is ever equal to it. */
  lemma NoLevelIsNoWord()
    ensures !IsWord(NO_LEVEL)
  {
    assert IsSpace(NO_LEVEL[2]);
  }

  /** The empty string is no decimal: `float('')` raises. */
  lemma EmptyIsNotDecimal()
    ensures !IsDecimal("")
  {
    assert Unsigned("") == "";
  }

  /**
   The dict `gamma_builder` builds from `lines`: every key is a field of some
   line, and every level stored under it is "" or a field, never the sentinel.
   */
  lemma ExtractedTable(lines: seq<string>, daughter: string)
    requires forall line :: line in lines ==> GammaReadable(line, daughter)
    ensures var t := Replay(Marks(lines, daughter)).1;
      forall g :: g in t.origin ==> IsWord(g) && t.origin[g] != NO_LEVEL
  {
    var ms := Marks(lines, daughter);
    var t := Replay(ms).1;
    MarksAreWords(lines, daughter);
    ReplayOriginSource(ms);
    NoLevelIsNoWord();
    forall g | g in t.origin
      ensures IsWord(g) && t.origin[g] != NO_LEVEL
    {
      ReplayKeys(ms, g);
      assert GammaMark(g) in ms;
      if t.origin[g] != "" {
        assert LevelMark(t.origin[g]) in ms;
      }
    }
  }

  /** A gamma entry after the first step names a key of the dict, so it holds more than its tag. */
  lemma GammaEntryWide(levels: seq<string>, t: GammaTable, p: seq<string>, i: nat)
    requires forall g :: g in t.origin ==> |g| > 0
    requires |p| % 2 == 1 && Alternates(p) && StepsFrom(levels, t, p, 2)
    requires 3 <= i < |p| && |p[i]| > 0 && p[i][0] == 'G'
    ensures |p[i]| >= 2
  {
    assert p[i][0] == (if i % 2 == 0 then 'L' else 'G');
    assert i % 2 == 1;
    OddBelowOdd(i, |p|);
    assert IsStep(levels, t, p[i - 1], p[i], p[i + 1]);
    assert p[i][1..] in t.origin;
  }

  /** A finished path from a start with a non-empty level, over a dict with non-empty keys, can be named and annotated. */
  lemma ShapedNameable(levels: seq<string>, t: GammaTable, eps: real, s: (string, string), p: seq<string>)
    requires IsStart(levels, t, s) && |s.0| > 0
    requires forall g :: g in t.origin ==> |g| > 0
    requires Shaped(levels, t, eps, s, p)
    ensures Nameable(p)
  {
    assert IsChain(levels, t, p, 2);
    assert |s.1| > 0;
    assert |p[0]| >= 2 && |p[1]| >= 2;
    forall i | 0 <= i < |p|
      ensures |p[i]| > 0 && (p[i][0] == 'G' ==> |p[i]| >= 2)
    {
      assert |p[i]| > 0;
      if i >= 3 && p[i][0] == 'G' {
        GammaEntryWide(levels, t, p, i);
      } else if i == 2 {
        assert p[2][0] == 'L';
      }
    }
  }

  /**
   When the levels are decimals and no key of the dict is empty, every path
   `path_finder` returns can be handed to `write_paths`.
   */
  lemma AllPathsNameable(levels: seq<string>, t: GammaTable, eps: real, fuel: nat)
    requires t.Valid() && AllDecimal(levels)
    requires forall g :: g in t.origin ==> |g| > 0
    requires AllPaths(levels, t, eps, fuel).Some?
    ensures forall k :: 0 <= k < |AllPaths(levels, t, eps, fuel).value| ==> Nameable(AllPaths(levels, t, eps, fuel).value[k])
  {
    var ps := AllPaths(levels, t, eps, fuel).value;
    EmptyIsNotDecimal();
    forall k | 0 <= k < |ps|
      ensures Nameable(ps[k])
    {
      AllPathsShape(levels, t, eps, fuel, k);
      var s := Starts(levels, t)[k];
      assert s.0 in levels;
      ShapedNameable(levels, t, eps, s, ps[k]);
    }
  }
}
