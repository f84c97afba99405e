/**
 The writer: `value_to_decimal` turns a tagged path entry ("L1234.5",
 "G87.2") into the integer part of its energy, `write_paths` names one output
 file per path after those parts and copies the input lines into it, turning
 every line that belongs to no entry of the path into a comment.

 The files themselves are not written: the model returns, per path, the name
 and the lines `write_paths` writes, in the order it writes them.
 */
module Serializer {
  import opened Builtins

  /** The characters of an entry after its tag, up to its first '.': the name of an energy. */
  function EnergyName(entry: string): (r: string)
    requires |entry| >= 2
    ensures r <= entry[1..] && '.' !in r
    ensures |r| == |entry| - 1 || entry[|r| + 1] == '.'
  {
    BeforeDot(entry[1..])
  }

  /** The three facts about BeforeDot pin it down: no other prefix of `s` has them. */
  lemma {:induction false} BeforeDotUnique(s: string, r: string)
    requires r <= s && '.' !in r
    requires |r| == |s| || s[|r|] == '.'
    ensures r == BeforeDot(s)
    decreases |r|
  {
    if r != [] {
      assert s != [] && s[0] == r[0] && r[0] in r;
      BeforeDotUnique(s[1..], r[1..]);
      assert BeforeDot(s) == [s[0]] + BeforeDot(s[1..]);
    } else if s != [] {
      assert s[0] == '.';
    }
  }

  /** `value_to_decimal(entry)`: the loop grows the name one character at a time until a '.' or the end. */
  method ValueToDecimal(entry: string) returns (name: string)
    requires |entry| >= 2
    ensures name == EnergyName(entry)
  {
    name := "";
    var c := 1;
    var ch := entry[c];
    while ch != '.'
      invariant 1 <= c < |entry| && ch == entry[c]
      invariant name == entry[1..c] && '.' !in name
      decreases |entry| - c
    {
      assert entry[1..c + 1] == entry[1..c] + [ch];
      name := name + [ch];
      c := c + 1;
      if c == |entry| {
        BeforeDotUnique(entry[1..], name);
        return;
      }
      ch := entry[c];
    }
    BeforeDotUnique(entry[1..], name);
  }

  // ---------------------------------------------------------------- file names

  /** Every entry carries a tag, and every gamma entry a character after it. */
  predicate Tagged(entries: seq<string>) {
    forall i :: 0 <= i < |entries| ==> |entries[i]| > 0 && (entries[i][0] == 'G' ==> |entries[i]| >= 2)
  }

  /** What `write_paths` reads of a path: a tagged first entry with a character after the tag, and tags on all entries. */
  predicate Nameable(path: seq<string>) {
    |path| > 0 && |path[0]| >= 2 && Tagged(path)
  }

  /** The part a single entry adds to the file name: "_" + name + "g" for a gamma, nothing otherwise. */
  function EntrySuffix(entry: string): (r: string)
    requires |entry| > 0 && (entry[0] == 'G' ==> |entry| >= 2)
    ensures entry[0] != 'G' <==> r == []
    ensures entry[0] == 'G' ==> r == "_" + EnergyName(entry) + "g"
  {
    if entry[0] == 'G' then "_" + EnergyName(entry) + "g" else ""
  }

  /** The suffixes of the entries, in order. */
  function GammaSuffix(entries: seq<string>): string
    requires Tagged(entries)
    decreases |entries|
  {
    if entries == [] then ""
    else GammaSuffix(entries[..|entries| - 1]) + EntrySuffix(entries[|entries| - 1])
  }

  /** The name of the file `write_paths` writes for `path`. */
  function FileName(nuclei: string, path: seq<string>): (r: string)
    requires Nameable(path)
    ensures nuclei + "_" <= r
    ensures |r| >= 4 && r[|r| - 4..] == ".ens"
  {
    nuclei + "_" + EnergyName(path[0]) + "L" + GammaSuffix(path) + ".ens"
  }

  /** The file name of a path, built entry by entry as `write_paths` builds it. */
  method BuildFileName(nuclei: string, path: seq<string>) returns (filename: string)
    requires Nameable(path)
    ensures filename == FileName(nuclei, path)
  {
    var level := ValueToDecimal(path[0]);
    filename := nuclei + "_" + level + "L";
    ghost var head := filename;
    for k := 0 to |path|
      invariant filename == head + GammaSuffix(path[..k])
    {
      TakeSnoc(path, k);
      if path[k][0] == 'G' {
        var gamma := ValueToDecimal(path[k]);
        ConcatAssoc(head, GammaSuffix(path[..k]), "_" + gamma + "g");
        filename := filename + ("_" + gamma + "g");
      }
    }
    assert path[..|path|] == path;
    filename := filename + ".ens";
  }

  /** Two runs of tagged entries make one. */
  lemma TaggedAppend(p: seq<string>, q: seq<string>)
    requires Tagged(p) && Tagged(q)
    ensures Tagged(p + q)
  {
    assert forall i :: |p| <= i < |p + q| ==> (p + q)[i] == q[i - |p|];
  }

  /** Only the gamma entries name the file, each in its place: the suffix of two runs of entries is the suffixes of the two. */
  lemma {:induction false} GammaSuffixAppend(p: seq<string>, q: seq<string>)
    requires Tagged(p) && Tagged(q)
    ensures Tagged(p + q)
    ensures GammaSuffix(p + q) == GammaSuffix(p) + GammaSuffix(q)
    decreases |q|
  {
    TaggedAppend(p, q);
    if q == [] {
      assert p + q == p;
    } else {
      var init := q[..|q| - 1];
      GammaSuffixAppend(p, init);
      assert (p + q)[..|p + q| - 1] == p + init;
      var a, b, e := GammaSuffix(p), GammaSuffix(init), EntrySuffix(q[|q| - 1]);
      ConcatAssoc(a, b, e);
    }
  }

  // ---------------------------------------------------------------- lines

  /** The lines `write_paths` copies: `lines[:-1]`, every line but the last. */
  function Body(lines: seq<string>): (body: seq<string>)
    ensures |body| == if lines == [] then 0 else |lines| - 1
    ensures forall i :: 0 <= i < |body| ==> body[i] == lines[i]
  {
    if lines == [] then [] else lines[..|lines| - 1]
  }

  /** Every line is long enough to have a column 7. */
  predicate LongLines(body: seq<string>) {
    forall i :: 0 <= i < |body| ==> |body[i]| >= 8
  }

  /** `write_paths` reads column 7 of every line it copies. */
  predicate Annotatable(lines: seq<string>) {
    LongLines(Body(lines))
  }

  /** The key of an ENSDF line: the record type in column 7 and the stripped energy field, columns 9 to 17. */
  function LineKey(line: string): string
    requires |line| >= 8
  {
    [line[7]] + Strip(Slice(line, 9, 18))
  }

  /** `line[:6] + 'c' + line[7:]`: the line turned into an ENSDF comment, 'c' in column 6. */
  function Commented(line: string): (r: string)
    requires |line| >= 7
    ensures |r| == |line| && r[6] == 'c'
    ensures forall i :: 0 <= i < |line| && i != 6 ==> r[i] == line[i]
  {
    line[..6] + "c" + line[7..]
  }

  /** Commenting a comment changes nothing. */
  lemma CommentedTwice(line: string)
    requires |line| >= 7
    ensures Commented(Commented(line)) == Commented(line)
  {
    var r := Commented(line);
    assert forall i :: 0 <= i < |r| ==> Commented(r)[i] == r[i];
  }

  /** The line `write_paths` writes for `line`: as it is when its key is an entry of the path, commented otherwise. */
  function AnnotateLine(line: string, path: seq<string>): string
    requires |line| >= 8
  {
    if LineKey(line) in path then line else Commented(line)
  }

  /**
   An annotated line has the length of its input and differs from it at most
   in column 6, which holds 'c' unless the key is in the path.
   */
  lemma AnnotateLineSpec(line: string, path: seq<string>)
    requires |line| >= 8
    ensures |AnnotateLine(line, path)| == |line|
    ensures forall i :: 0 <= i < |line| && i != 6 ==> AnnotateLine(line, path)[i] == line[i]
    ensures AnnotateLine(line, path)[6] == if LineKey(line) in path then line[6] else 'c'
  {
  }

  /** Commenting a line leaves its key alone. */
  lemma KeyKept(line: string, path: seq<string>)
    requires |line| >= 8
    ensures LineKey(AnnotateLine(line, path)) == LineKey(line)
  {
    var r := AnnotateLine(line, path);
    SliceAgree(r, line, 9, 18);
  }

  /** Annotating twice writes the same line as annotating once. */
  lemma AnnotateIdempotent(line: string, path: seq<string>)
    requires |line| >= 8
    ensures AnnotateLine(AnnotateLine(line, path), path) == AnnotateLine(line, path)
  {
    if LineKey(line) !in path {
      KeyKept(line, path);
      CommentedTwice(line);
    }
  }

  /** A line comes out as it went in exactly when its key is in the path or it is already a comment. */
  lemma AnnotateKeeps(line: string, path: seq<string>)
    requires |line| >= 8
    ensures AnnotateLine(line, path) == line <==> LineKey(line) in path || line[6] == 'c'
  {
    var r := AnnotateLine(line, path);
    if line[6] == 'c' {
      assert r == line;
    }
  }

  /** The lines `body` annotated for `path`, one for one. */
  function AnnotateAll(body: seq<string>, path: seq<string>): (out: seq<string>)
    requires LongLines(body)
  {
    seq(|body|, i requires 0 <= i < |body| => AnnotateLine(body[i], path))
  }

  /** The inner `for line in lines[:-1]` loop of `write_paths`. */
  method AnnotateLines(lines: seq<string>, path: seq<string>) returns (out: seq<string>)
    requires Annotatable(lines)
    ensures out == AnnotateAll(Body(lines), path)
  {
    var body := Body(lines);
    ghost var all := AnnotateAll(body, path);
    out := [];
    for i := 0 to |body|
      invariant out == all[..i]
    {
      TakeSnoc(all, i);
      out := out + [AnnotateLine(body[i], path)];
    }
    assert all[..|body|] == all;
  }

  /**
   The lines written for a path: one per input line but the last, each as long
   as its input and equal to it except in column 6, which holds 'c' unless the
   line's key is an entry of the path.
   */
  lemma WrittenLines(lines: seq<string>, path: seq<string>)
    requires Annotatable(lines) && lines != []
    ensures var out := AnnotateAll(Body(lines), path);
      && |out| == |lines| - 1
      && forall i :: 0 <= i < |out| ==>
        && |out[i]| == |lines[i]|
        && out[i][6] == (if LineKey(lines[i]) in path then lines[i][6] else 'c')
        && forall c :: 0 <= c < |lines[i]| && c != 6 ==> out[i][c] == lines[i][c]
  {
    var body, out := Body(lines), AnnotateAll(Body(lines), path);
    forall i | 0 <= i < |out|
      ensures |out[i]| == |lines[i]|
      ensures out[i][6] == (if LineKey(lines[i]) in path then lines[i][6] else 'c')
      ensures forall c :: 0 <= c < |lines[i]| && c != 6 ==> out[i][c] == lines[i][c]
    {
      assert body[i] == lines[i] && out[i] == AnnotateLine(lines[i], path);
      AnnotateLineSpec(lines[i], path);
    }
  }

  /** One output file: its name and its lines. */
  datatype OutputFile = OutputFile(name: string, lines: seq<string>)

  /** The file `write_paths` writes for `path`. */
  function Output(nuclei: string, lines: seq<string>, path: seq<string>): OutputFile
    requires Nameable(path) && Annotatable(lines)
  {
    OutputFile(FileName(nuclei, path), AnnotateAll(Body(lines), path))
  }

  /** One round of the `for path in paths` loop of `write_paths`. */
  method WritePath(path: seq<string>, lines: seq<string>, nuclei: string) returns (file: OutputFile)
    requires Nameable(path) && Annotatable(lines)
    ensures file == Output(nuclei, lines, path)
  {
    var filename := BuildFileName(nuclei, path);
    var written := AnnotateLines(lines, path);
    file := OutputFile(filename, written);
  }

  /** The first `i + 1` files are the first `i` and then file `i`. */
  lemma FilesSnoc(s: seq<OutputFile>, i: nat)
    requires i < |s|
    ensures s[..i + 1] == s[..i] + [s[i]]
  {
  }

  /**
   `write_paths(paths, lines, nuclei)`: one file per path, in order, named after
   the path and holding every line but the last, annotated for that path.
   */
  method WritePaths(paths: seq<seq<string>>, lines: seq<string>, nuclei: string) returns (files: seq<OutputFile>)
    requires forall k :: 0 <= k < |paths| ==> Nameable(paths[k])
    requires paths != [] ==> Annotatable(lines)
    ensures |files| == |paths|
    ensures forall k :: 0 <= k < |paths| ==> files[k] == Output(nuclei, lines, paths[k])
  {
    ghost var all := seq(|paths|, k requires 0 <= k < |paths| => Output(nuclei, lines, paths[k]));
    files := [];
    for k := 0 to |paths|
      invariant files == all[..k]
    {
      var file := WritePath(paths[k], lines, nuclei);
      FilesSnoc(all, k);
      files := files + [file];
    }
    assert all[..|paths|] == all;
  }
}
