/**
 The record extractor: `level_grab` collects the level energies and
 `gamma_builder` ties every gamma energy to the level record that came last
 before it in the file. Both look only at lines whose first field is as wide
 as the daughter identifier ("97Rb" selects every four-character first field).
 */
module Extractor {
  import opened Builtins

  /** The row filter of both extractors: a non-blank line whose first field is as wide as `daughter`. */
  predicate IsRecord(words: seq<string>, daughter: string) {
    |words| != 0 && |words[0]| == |daughter|
  }

  // ---------------------------------------------------------------- levels

  /** `level_grab` reads the second field of every record, and the third when the second is "L". */
  predicate LevelReadable(line: string, daughter: string) {
    var words := Split(line);
    IsRecord(words, daughter) ==> |words| >= 2 && (words[1] == "L" ==> |words| >= 3)
  }

  /** A level record: a record whose second field is "L". */
  predicate IsLevelLine(line: string, daughter: string)
    requires LevelReadable(line, daughter)
  {
    var words := Split(line);
    IsRecord(words, daughter) && words[1] == "L"
  }

  /** `line` is a level record whose energy field is `x`. */
  predicate LevelRecordOf(line: string, daughter: string, x: string) {
    LevelReadable(line, daughter) && IsLevelLine(line, daughter) && Split(line)[2] == x
  }

  /** The level energies of `lines`, one per level record, in file order. */
  function LevelsInFileOrder(lines: seq<string>, daughter: string): seq<string>
    requires forall line :: line in lines ==> LevelReadable(line, daughter)
    decreases |lines|
  {
    if lines == [] then []
    else
      (if IsLevelLine(lines[0], daughter) then [Split(lines[0])[2]] else [])
      + LevelsInFileOrder(lines[1..], daughter)
  }

  /** `level_grab(lines, daughter)`: the level energies, last level record first. */
  method LevelGrab(lines: seq<string>, daughter: string) returns (levels: seq<string>)
    requires forall line :: line in lines ==> LevelReadable(line, daughter)
    ensures |levels| == |LevelsInFileOrder(lines, daughter)|
    ensures forall k :: 0 <= k < |levels| ==>
      levels[k] == LevelsInFileOrder(lines, daughter)[|levels| - 1 - k]
  {
    levels := [];
    var i := |lines|;
    while i > 0
      invariant 0 <= i <= |lines|
      invariant |levels| == |LevelsInFileOrder(lines[i..], daughter)|
      invariant forall k :: 0 <= k < |levels| ==>
        levels[k] == LevelsInFileOrder(lines[i..], daughter)[|levels| - 1 - k]
    {
      i := i - 1;
      assert lines[i..][1..] == lines[i + 1..];
      assert lines[i] in lines;
      var words := Split(lines[i]);
      if |words| != 0 {
        if |words[0]| == |daughter| {
          if words[1] == "L" {
            levels := levels + [words[2]];
          }
        }
      }
    }
  }

  /** `level_grab` never returns more energies than there are lines. */
  lemma {:induction false} LevelsBound(lines: seq<string>, daughter: string)
    requires forall line :: line in lines ==> LevelReadable(line, daughter)
    ensures |LevelsInFileOrder(lines, daughter)| <= |lines|
    decreases |lines|
  {
    if lines != [] {
      assert forall line :: line in lines[1..] ==> line in lines;
      LevelsBound(lines[1..], daughter);
    }
  }

  /** Every level energy is the third field of a level record. */
  lemma {:induction false} LevelsFromRecords(lines: seq<string>, daughter: string, x: string)
    requires forall line :: line in lines ==> LevelReadable(line, daughter)
    requires x in LevelsInFileOrder(lines, daughter)
    ensures exists j :: 0 <= j < |lines| && LevelRecordOf(lines[j], daughter, x)
    decreases |lines|
  {
    assert lines[0] in lines;
    if !LevelRecordOf(lines[0], daughter, x) {
      var rest := lines[1..];
      assert forall line :: line in rest ==> line in lines;
      LevelsFromRecords(rest, daughter, x);
      var j :| 0 <= j < |rest| && LevelRecordOf(rest[j], daughter, x);
      assert rest[j] == lines[j + 1];
    }
  }

  /** The third field of every level record is a level energy. */
  lemma {:induction false} RecordsGiveLevels(lines: seq<string>, daughter: string, j: nat)
    requires forall line :: line in lines ==> LevelReadable(line, daughter)
    requires j < |lines| && IsLevelLine(lines[j], daughter)
    ensures Split(lines[j])[2] in LevelsInFileOrder(lines, daughter)
    decreases |lines|
  {
    assert lines[0] in lines;
    if j > 0 {
      var rest := lines[1..];
      assert forall line :: line in rest ==> line in lines;
      assert rest[j - 1] == lines[j];
      RecordsGiveLevels(rest, daughter, j - 1);
    }
  }

  // ---------------------------------------------------------------- gammas

  /** An "L" or "G" field with the energy field that follows it, in the order the fields are read. */
  datatype Mark = LevelMark(energy: string) | GammaMark(energy: string)

  /** `gamma_builder` reads the field after every "L" or "G" of a record. */
  predicate MarkersFollowed(words: seq<string>) {
    forall i :: 0 <= i < |words| && (words[i] == "L" || words[i] == "G") ==> i + 1 < |words|
  }

  predicate GammaReadable(line: string, daughter: string) {
    var words := Split(line);
    IsRecord(words, daughter) ==> MarkersFollowed(words)
  }

  /** The mark that field `i` of a record starts, if any. */
  function MarkAt(words: seq<string>, i: nat): (ms: seq<Mark>)
    requires i < |words| && MarkersFollowed(words)
    ensures |ms| <= 1
    ensures forall m :: m in ms ==> m.energy in words
  {
    if words[i] == "L" then [LevelMark(words[i + 1])]
    else if words[i] == "G" then [GammaMark(words[i + 1])]
    else []
  }

  /** The marks among the first `n` fields of a record. */
  function WordMarks(words: seq<string>, n: nat): (ms: seq<Mark>)
    requires n <= |words| && MarkersFollowed(words)
    ensures forall m :: m in ms ==> m.energy in words
    decreases n
  {
    if n == 0 then [] else WordMarks(words, n - 1) + MarkAt(words, n - 1)
  }

  lemma WordMarksSnoc(words: seq<string>, i: nat)
    requires i < |words| && MarkersFollowed(words)
    ensures WordMarks(words, i + 1) == WordMarks(words, i) + MarkAt(words, i)
  {
  }

  /** The marks of one line: all of its markers if it is a record, none otherwise. */
  function LineMarks(line: string, daughter: string): seq<Mark>
    requires GammaReadable(line, daughter)
  {
    var words := Split(line);
    if IsRecord(words, daughter) then WordMarks(words, |words|) else []
  }

  /** The marks of all lines, in file order. */
  function Marks(lines: seq<string>, daughter: string): seq<Mark>
    requires forall line :: line in lines ==> GammaReadable(line, daughter)
    decreases |lines|
  {
    if lines == [] then []
    else Marks(lines[..|lines| - 1], daughter) + LineMarks(lines[|lines| - 1], daughter)
  }

  /**
   A Python dict from gamma energy to level energy: `order` holds the keys in
   insertion order (the order `for gamma in gammas` visits them).
   */
  datatype GammaTable = GammaTable(order: seq<string>, origin: map<string, string>) {
    ghost predicate Valid() {
      && (forall i, j :: 0 <= i < j < |order| ==> order[i] != order[j])
      && (forall g :: g in order <==> g in origin)
    }
  }

  /** The dict after `d[g] = level`: a new key goes to the end of the order, an existing key keeps its place. */
  function Store(t: GammaTable, g: string, level: string): (r: GammaTable)
    requires t.Valid()
    ensures r.Valid()
  {
    GammaTable(if g in t.origin then t.order else t.order + [g], t.origin[g := level])
  }

  /** What `gamma_builder` does with one mark: an "L" moves the level cursor, a "G" stores the cursor. */
  function Step(state: (string, GammaTable), m: Mark): (string, GammaTable)
    requires state.1.Valid()
  {
    match m
    case LevelMark(e) => (e, state.1)
    case GammaMark(g) => (state.0, Store(state.1, g, state.0))
  }

  /** The level cursor and the dict after `gamma_builder` has read the marks `ms`. */
  function Replay(ms: seq<Mark>): (r: (string, GammaTable))
    ensures r.1.Valid()
    decreases |ms|
  {
    if ms == [] then ("", GammaTable([], map[]))
    else Step(Replay(ms[..|ms| - 1]), ms[|ms| - 1])
  }

  lemma ReplaySnoc(ms: seq<Mark>, extra: seq<Mark>)
    requires |extra| <= 1
    ensures Replay(ms + extra) == if extra == [] then Replay(ms) else Step(Replay(ms), extra[0])
  {
    if extra == [] {
      assert ms + extra == ms;
    } else {
      assert (ms + extra)[..|ms|] == ms;
    }
  }

  /** Reading field `i` of a record after the marks `done` of the earlier lines. */
  lemma ReplayAfter(done: seq<Mark>, words: seq<string>, i: nat)
    requires i < |words| && MarkersFollowed(words)
    ensures var before := Replay(done + WordMarks(words, i));
      var after := Replay(done + WordMarks(words, i + 1));
      && (words[i] == "L" ==> after == (words[i + 1], before.1))
      && (words[i] == "G" ==> after == (before.0, Store(before.1, words[i + 1], before.0)))
      && (words[i] != "L" && words[i] != "G" ==> after == before)
  {
    var mark := MarkAt(words, i);
    assert done + WordMarks(words, i + 1) == (done + WordMarks(words, i)) + mark;
    ReplaySnoc(done + WordMarks(words, i), mark);
  }

  /** The marks of `lines[..j + 1]`: those of `lines[..j]` and then those of line `j`. */
  lemma MarksSnoc(lines: seq<string>, j: nat, daughter: string)
    requires j < |lines|
    requires forall line :: line in lines ==> GammaReadable(line, daughter)
    ensures var words := Split(lines[j]);
      if IsRecord(words, daughter) then
        MarkersFollowed(words)
        && Marks(lines[..j + 1], daughter) == Marks(lines[..j], daughter) + WordMarks(words, |words|)
      else Marks(lines[..j + 1], daughter) == Marks(lines[..j], daughter)
  {
    assert lines[..j + 1][..j] == lines[..j];
    assert lines[j] in lines;
    assert Marks(lines[..j], daughter) + [] == Marks(lines[..j], daughter);
  }

  /**
   The inner `for i in range(len(lin))` loop of `gamma_builder` over the fields
   of one record, read after the marks `done` of the earlier lines.
   */
  method ReadRecord(words: seq<string>, ghost done: seq<Mark>, level: string, order: seq<string>,
                    origin: map<string, string>)
    returns (level': string, order': seq<string>, origin': map<string, string>)
    requires MarkersFollowed(words)
    requires (level, GammaTable(order, origin)) == Replay(done)
    ensures (level', GammaTable(order', origin')) == Replay(done + WordMarks(words, |words|))
  {
    level', order', origin' := level, order, origin;
    assert done + WordMarks(words, 0) == done;
    for i := 0 to |words|
      invariant (level', GammaTable(order', origin')) == Replay(done + WordMarks(words, i))
    {
      ReplayAfter(done, words, i);
      if words[i] == "L" {
        level' := words[i + 1];
      }
      if words[i] == "G" {
        if words[i + 1] !in origin' {
          order' := order' + [words[i + 1]];
        }
        origin' := origin'[words[i + 1] := level'];
      }
    }
  }

  /** `gamma_builder(lines, daughter)`. */
  method GammaBuilder(lines: seq<string>, daughter: string) returns (gammas: GammaTable)
    requires forall line :: line in lines ==> GammaReadable(line, daughter)
    ensures gammas == Replay(Marks(lines, daughter)).1
  {
    var order: seq<string> := [];
    var origin: map<string, string> := map[];
    var level := "";
    for j := 0 to |lines|
      invariant (level, GammaTable(order, origin)) == Replay(Marks(lines[..j], daughter))
    {
      MarksSnoc(lines, j, daughter);
      var words := Split(lines[j]);
      if |words| != 0 && |words[0]| == |daughter| {
        level, order, origin := ReadRecord(words, Marks(lines[..j], daughter), level, order, origin);
      }
    }
    assert lines[..|lines|] == lines;
    gammas := GammaTable(order, origin);
  }

  /** Mark `k` is the last level mark of `ms`. */
  predicate IsLastLevelMark(ms: seq<Mark>, k: nat)
    requires k < |ms|
  {
    ms[k].LevelMark? && forall j :: k < j < |ms| ==> !ms[j].LevelMark?
  }

  /** Mark `k` is the last gamma mark of `ms` with energy `g`. */
  predicate IsLastGammaMark(ms: seq<Mark>, k: nat, g: string)
    requires k < |ms|
  {
    ms[k] == GammaMark(g) && forall j :: k < j < |ms| ==> ms[j] != GammaMark(g)
  }

  /** The level cursor after `ms` is the energy of the last level mark, or "" when there is none. */
  lemma {:induction false} ReplayCursor(ms: seq<Mark>)
    ensures (forall k :: 0 <= k < |ms| ==> !ms[k].LevelMark?) ==> Replay(ms).0 == ""
    ensures forall k :: 0 <= k < |ms| && IsLastLevelMark(ms, k) ==> Replay(ms).0 == ms[k].energy
    decreases |ms|
  {
    if ms != [] {
      var prefix := ms[..|ms| - 1];
      ReplayCursor(prefix);
      forall k | 0 <= k < |ms| && IsLastLevelMark(ms, k)
        ensures Replay(ms).0 == ms[k].energy
      {
        if k < |ms| - 1 {
          assert prefix[k] == ms[k];
          assert forall j :: k < j < |prefix| ==> prefix[j] == ms[j];
        }
      }
      if forall k :: 0 <= k < |ms| ==> !ms[k].LevelMark? {
        assert forall k :: 0 <= k < |prefix| ==> prefix[k] == ms[k];
      }
    }
  }

  /** A gamma energy is a key of the dict exactly when it occurs in a gamma mark. */
  lemma {:induction false} ReplayKeys(ms: seq<Mark>, g: string)
    ensures g in Replay(ms).1.origin <==> GammaMark(g) in ms
    decreases |ms|
  {
    if ms != [] {
      var prefix := ms[..|ms| - 1];
      ReplayKeys(prefix, g);
      assert ms == prefix + [ms[|ms| - 1]];
    }
  }

  /**
   A repeated gamma energy keeps its last association: the level stored under
   it is the cursor just before its last gamma mark.
   */
  lemma {:induction false} ReplayLast(ms: seq<Mark>, g: string, k: nat)
    requires k < |ms| && IsLastGammaMark(ms, k, g)
    ensures g in Replay(ms).1.origin && Replay(ms).1.origin[g] == Replay(ms[..k]).0
    decreases |ms|
  {
    var prefix := ms[..|ms| - 1];
    if k < |ms| - 1 {
      assert prefix[k] == ms[k];
      forall j | k < j < |prefix|
        ensures prefix[j] != GammaMark(g)
      {
        assert prefix[j] == ms[j];
      }
      ReplayLast(prefix, g, k);
      assert prefix[..k] == ms[..k];
    } else {
      assert ms[..k] == prefix;
    }
  }

  /**
   The level `gamma_builder` stores under a gamma energy: the energy of the last
   level mark before the gamma's last mark, or "" when no level mark comes first.
   */
  lemma GammaLevel(ms: seq<Mark>, g: string, k: nat)
    requires k < |ms| && IsLastGammaMark(ms, k, g)
    ensures g in Replay(ms).1.origin
    ensures (forall j :: 0 <= j < k ==> !ms[j].LevelMark?) ==> Replay(ms).1.origin[g] == ""
    ensures forall l :: 0 <= l < k && IsLastLevelMark(ms[..k], l) ==> Replay(ms).1.origin[g] == ms[l].energy
  {
    ReplayLast(ms, g, k);
    ReplayCursor(ms[..k]);
    assert forall j :: 0 <= j < k ==> ms[..k][j] == ms[j];
  }

  /** Every level stored in the dict is "" or the energy of some level mark. */
  lemma {:induction false} ReplayOriginSource(ms: seq<Mark>)
    ensures Replay(ms).0 == "" || LevelMark(Replay(ms).0) in ms
    ensures forall g :: g in Replay(ms).1.origin ==>
      Replay(ms).1.origin[g] == "" || LevelMark(Replay(ms).1.origin[g]) in ms
    decreases |ms|
  {
    if ms != [] {
      var prefix, m := ms[..|ms| - 1], ms[|ms| - 1];
      ReplayOriginSource(prefix);
      assert forall x :: x in prefix ==> x in ms;
      assert m in ms;
      var before := Replay(prefix);
      if m.GammaMark? {
        assert Replay(ms).1.origin == before.1.origin[m.energy := before.0];
      } else {
        assert Replay(ms).1 == before.1;
      }
    }
  }

  /** The gamma energies of `ms`, in order. */
  function GammaEnergies(ms: seq<Mark>): (es: seq<string>)
    ensures forall e :: e in es <==> GammaMark(e) in ms
    decreases |ms|
  {
    if ms == [] then []
    else
      GammaEnergies(ms[..|ms| - 1])
      + if ms[|ms| - 1].GammaMark? then [ms[|ms| - 1].energy] else []
  }

  /** `s` with every repetition of an element after its first occurrence removed. */
  function FirstOccurrences(s: seq<string>): (r: seq<string>)
    ensures forall x :: x in r <==> x in s
    decreases |s|
  {
    if s == [] then []
    else
      var r := FirstOccurrences(s[..|s| - 1]);
      if s[|s| - 1] in r then r else r + [s[|s| - 1]]
  }

  /** The dict's keys are the gamma energies in the order of their first occurrence. */
  lemma {:induction false} ReplayOrder(ms: seq<Mark>)
    ensures Replay(ms).1.order == FirstOccurrences(GammaEnergies(ms))
    decreases |ms|
  {
    if ms != [] {
      var prefix := ms[..|ms| - 1];
      ReplayOrder(prefix);
      var t := Replay(prefix).1;
      assert forall g :: g in t.order <==> g in t.origin;
      if ms[|ms| - 1].GammaMark? {
        var es := GammaEnergies(ms);
        assert es[..|es| - 1] == GammaEnergies(prefix);
      } else {
        assert Replay(ms).1 == t;
        assert GammaEnergies(ms) == GammaEnergies(prefix) + [];
        assert GammaEnergies(prefix) + [] == GammaEnergies(prefix);
      }
    }
  }

  /** A record's marks carry fields of the line, so none of their energies holds white space. */
  lemma {:induction false} MarksAreWords(lines: seq<string>, daughter: string)
    requires forall line :: line in lines ==> GammaReadable(line, daughter)
    ensures forall m :: m in Marks(lines, daughter) ==> IsWord(m.energy)
    decreases |lines|
  {
    if lines != [] {
      var last := lines[|lines| - 1];
      MarksAreWords(lines[..|lines| - 1], daughter);
      assert last in lines;

    }
  }
}
