# ENSDF gamma paths

A model of `ENSDF_to_Gamma_Paths.py`. The script reads an ENSDF beta-decay
file for one daughter nucleus and writes one copy of the file for every gamma
path. A gamma path is a chain that starts at an excited level and goes down,
gamma by gamma, to the ground state. In each copy, the lines that belong to no
entry of the path are turned into comments.

The model has six modules:

- `Builtins`: the Python built-ins the script relies on, stated over Dafny
  strings. These are `str.split()`, `str.strip()`, slicing with clamped bounds,
  and `float()`, which is read as an exact rational on plain decimal strings.
- `Extractor`: `level_grab` and `gamma_builder`.
  - `level_grab` is the method `LevelGrab`, proved against the file-order
    list `LevelsInFileOrder`.
  - `gamma_builder` is the method `GammaBuilder` (with `ReadRecord` for its
    inner loop). It is proved against `Replay`, which folds the "L"/"G" marks
    of all records, in file order, into a level cursor and a dict.
  - The dict is a `GammaTable`: a map plus the insertion order that
    `for gamma in gammas` follows.
- `Reconstructor`: `find_next_level` and `path_finder`.
  - Each loop is a method proved against a function: `FindNext`, `Pass` (one
    run of `for gam in gammas`), `Walk` (the `while` loop), `PathFrom` and
    `AllPaths`.
  - The `while` loop need not end, so each walk gets `fuel` passes. A walk
    that needs more makes the result `None`.
- `PathProperties`: what the paths are.
  - The successor is the first level in the window.
  - Every finished path alternates levels and gammas, takes steps the gamma
    table allows, lands inside the tolerance window at each step, and ends on
    "L0.0".
  - The result is the walk from every (level, emitted gamma) start, ordered by
    level first and by gamma table second.
  - Walks that reach a dead end, the sentinel or a cycle never end.
- `Serializer`: `value_to_decimal` and `write_paths`.
  - The file name is built from the path's level and gamma entries.
  - Each written line is copied as it is, or with a 'c' in column 6 (0-based).
  - The model returns the file name and the lines of every file instead of
    writing them.
- `Pipeline`: how the parts connect.
  - The dict `gamma_builder` builds has non-empty keys and never stores the
    sentinel.
  - Every path `path_finder` returns can therefore be handed to `write_paths`.

Behaviour of the code that the model keeps as it is:

- The code defines no error kinds.
  - A successor that `find_next_level` does not find is the string
    "no level".
  - A walk that reaches "no level", a level with no way down, or a cycle of
    levels loops forever. In the model this is `None` (`NoLevelHangs`,
    `DeadEndHangs`, `CycleHangs`).
- Each round of the `while` loop makes one pass over the whole dict.
  - That pass follows every gamma recorded under the level the walk stands on
    at that moment, in the dict's order.
  - So one pass can take several steps (`Pass`), and a cycle may span several
    passes (`Cycle`).
- Later steps use the default tolerance 1.0, whatever `eps` the caller passes.
  Only the first step of a path uses the caller's `eps` (`PathFrom`,
  `StepsInWindow`).
- The gamma map is a dict keyed by gamma energy. A gamma energy listed under
  two levels keeps only the last association (`ReplayLast`, `GammaLevel`), so
  two gammas of the same energy under different levels never both start a
  path.
- Completeness holds for every (level, gamma) pair whose level is among the
  levels `level_grab` returns (`AllPathsComplete`). It does not hold for every
  key of the dict, for two reasons:
  - a gamma listed before any level is stored under "";
  - `gamma_builder` moves its cursor on an "L" in any field of a record, while
    `level_grab` reads only records whose second field is "L", so a gamma can
    be stored under a value that is not one of the levels.

## Model

| member | source | states |
|---|---|---|
| Builtins.Split | ENSDF_to_Gamma_Paths.py:24 | every field `split()` returns is non-empty and free of white space |
| Builtins.Slice | ENSDF_to_Gamma_Paths.py:115 | a slice with clamped bounds is the exact subsequence when the bounds are in range, the rest of the string when only the upper bound is past the end, empty when the lower bound is past the end, and never longer than the string |
| Builtins.Strip | ENSDF_to_Gamma_Paths.py:115 | the result is a slice of the string with only white space in front of and behind it, and a non-empty result neither starts nor ends with white space |
| Builtins.BeforeDot | ENSDF_to_Gamma_Paths.py:94-99 | the result is a prefix free of '.' that stops at the first '.' or at the end |
| Extractor.LevelGrab | ENSDF_to_Gamma_Paths.py:20-29 | the level energies are those of the level records taken from the last line to the first: entry k is entry n-1-k of the file-order list |
| Extractor.LevelsBound | ENSDF_to_Gamma_Paths.py:22-29 | there are never more level energies than lines |
| Extractor.LevelsFromRecords | ENSDF_to_Gamma_Paths.py:23-28 | every level energy returned is the third field of a non-blank line whose first field is as wide as the daughter and whose second field is "L" |
| Extractor.RecordsGiveLevels | ENSDF_to_Gamma_Paths.py:23-28 | conversely, the third field of every such line is among the level energies |
| Extractor.Store | ENSDF_to_Gamma_Paths.py:44 | a dict assignment keeps the key order free of repeats and in step with the keys |
| Extractor.ReadRecord | ENSDF_to_Gamma_Paths.py:40-44 | after the loop over one record's fields, the cursor and the dict are what replaying the marks read so far, then that record's marks, gives |
| Extractor.GammaBuilder | ENSDF_to_Gamma_Paths.py:32-45 | the dict is the replay of the "L"/"G" marks of all records in file order |
| Extractor.ReplayCursor | ENSDF_to_Gamma_Paths.py:35-42 | the level cursor is "" before any level mark and the energy of the last level mark after one |
| Extractor.ReplayKeys | ENSDF_to_Gamma_Paths.py:36-44 | a gamma energy is a key of the dict exactly when it follows some "G" field of a record |
| Extractor.ReplayLast | ENSDF_to_Gamma_Paths.py:43-44 | a gamma energy seen several times keeps the cursor at its last occurrence |
| Extractor.GammaLevel | ENSDF_to_Gamma_Paths.py:35-44 | a gamma is stored under the last level before its last occurrence, or under "" when no level comes before it |
| Extractor.ReplayOriginSource | ENSDF_to_Gamma_Paths.py:35-44 | every stored level is "" or the energy of a level mark |
| Extractor.ReplayOrder | ENSDF_to_Gamma_Paths.py:34-44 | the dict visits its keys in the order of their first occurrence in the file |
| Extractor.MarksAreWords | ENSDF_to_Gamma_Paths.py:37-44 | every energy the extractor reads is a field of a line: non-empty and free of white space |
| Reconstructor.FindNext | ENSDF_to_Gamma_Paths.py:48-54 | the successor is one of the levels or the "no level" sentinel |
| Reconstructor.FindNextLevel | ENSDF_to_Gamma_Paths.py:48-54 | the loop over the levels returns the first level in the open window of width 2 eps around level - gamma, or the sentinel |
| PathProperties.NoLevelIsNotDecimal | ENSDF_to_Gamma_Paths.py:54 | the sentinel is no decimal, so `float()` never reads it as a level |
| PathProperties.FindNextFirst | ENSDF_to_Gamma_Paths.py:51-53 | a returned level lies in the window, and no level before it in the list does |
| PathProperties.FindNextNone | ENSDF_to_Gamma_Paths.py:51-54 | the sentinel comes back exactly when no level lies in the window |
| Reconstructor.Pass | ENSDF_to_Gamma_Paths.py:68-73 | a pass from a level, or from the sentinel, stays on a level or on the sentinel |
| Reconstructor.WalkableEmits | ENSDF_to_Gamma_Paths.py:69-70 | on a walkable table, the level and gamma handed to `find_next_level` are decimals |
| Reconstructor.FollowGamma | ENSDF_to_Gamma_Paths.py:68-73 | one round of `for gam in gammas` advances the pass by one gamma |
| Reconstructor.WalkPass | ENSDF_to_Gamma_Paths.py:68-73 | the `for gam` loop computes a whole pass over the dict |
| Reconstructor.WalkDown | ENSDF_to_Gamma_Paths.py:67-73 | the `while` loop computes the walk, or None when it needs more than `fuel` passes |
| Reconstructor.WalkFrom | ENSDF_to_Gamma_Paths.py:63-73 | a path starts "L" + level, "G" + gamma, "L" + the successor found with `eps`, and goes on as the walk |
| Reconstructor.VisitGamma | ENSDF_to_Gamma_Paths.py:61-74 | one round of `for gamma in gammas` appends the walk of an emitted gamma and skips the others |
| Reconstructor.WalksFromLevel | ENSDF_to_Gamma_Paths.py:61-74 | the loop over the dict for one level appends the walks of all gammas that level emits |
| Reconstructor.PathFinder | ENSDF_to_Gamma_Paths.py:57-75 | the loops compute AllPaths: every walk, level by level and gamma by gamma |
| PathProperties.StepChain | ENSDF_to_Gamma_Paths.py:69-73 | following a gamma of the current level keeps an alternating chain of allowed steps |
| PathProperties.PassChain | ENSDF_to_Gamma_Paths.py:68-73 | a pass extends the path, keeps it a chain, and leaves the walk on the level the path ends with |
| PathProperties.WalkChain | ENSDF_to_Gamma_Paths.py:67-73 | a walk that ends extends its path to a chain that ends on "L0.0" |
| PathProperties.PathFromShape | ENSDF_to_Gamma_Paths.py:66-73 | a finished path starts with the start's level, gamma and the successor found with `eps`, alternates L and G entries, has odd length, takes allowed steps and ends on "L0.0" |
| PathProperties.StepsInWindow | ENSDF_to_Gamma_Paths.py:63-70 | every step of a finished path lands in its window: within `eps` on the first step and within 1.0 on every later one |
| PathProperties.PassStays | ENSDF_to_Gamma_Paths.py:68-73 | a pass from a level that emits no gamma changes neither the level nor the path |
| PathProperties.DeadEndHangs | ENSDF_to_Gamma_Paths.py:67-73 | a walk on a level other than "0.0" that emits nothing never ends |
| PathProperties.NoLevelHangs | ENSDF_to_Gamma_Paths.py:67-73 | a walk that reaches the sentinel never ends |
| PathProperties.PassLevel | ENSDF_to_Gamma_Paths.py:68-73 | where a pass leads depends only on its starting level, not on the path so far |
| PathProperties.CycleHangs | ENSDF_to_Gamma_Paths.py:67-73 | a walk from a level that some number k >= 1 of full passes leads back to, without standing on "0.0" after any of the first k - 1 passes, never ends |
| PathProperties.WalkMoreFuel | ENSDF_to_Gamma_Paths.py:67-73 | a walk that ends gives the same path under any larger fuel bound |
| PathProperties.CollectNone | ENSDF_to_Gamma_Paths.py:59-75 | collecting walks fails exactly when the walk from some start does not end |
| PathProperties.CollectValues | ENSDF_to_Gamma_Paths.py:59-75 | a successful collection holds the walk of every start, one for one and in order |
| PathProperties.LevelPathsCollect | ENSDF_to_Gamma_Paths.py:61-74 | the inner loop appends the walks of the level's starts among the gammas visited so far |
| PathProperties.PathsUpToCollect | ENSDF_to_Gamma_Paths.py:60-74 | the outer loop collects the walks of the starts of the levels visited so far |
| PathProperties.AllPathsCollect | ENSDF_to_Gamma_Paths.py:57-75 | `path_finder` collects the walk from every start, in order of levels and then of the gamma table |
| PathProperties.StartsAtSpec | ENSDF_to_Gamma_Paths.py:61-62 | the starts of a level among the first gammas are exactly the gammas among them that the level emits |
| PathProperties.StartsUpToSpec | ENSDF_to_Gamma_Paths.py:60-62 | the starts of the first levels are exactly the pairs of one of them and a gamma it emits |
| PathProperties.StartsSpec | ENSDF_to_Gamma_Paths.py:60-62 | the starts are exactly the (level, emitted gamma) pairs |
| PathProperties.AllPathsNone | ENSDF_to_Gamma_Paths.py:57-75 | `path_finder` does not finish exactly when the walk from some (level, emitted gamma) pair does not end |
| PathProperties.AllPathsValues | ENSDF_to_Gamma_Paths.py:57-75 | there is one path per start, and path k is the walk from start k |
| PathProperties.AllPathsComplete | ENSDF_to_Gamma_Paths.py:57-75 | every (level, emitted gamma) pair has its walk among the paths |
| PathProperties.AllPathsShape | ENSDF_to_Gamma_Paths.py:57-75 | path k comes from a start and has the shape of a finished path |
| Serializer.EnergyName | ENSDF_to_Gamma_Paths.py:90-100 | the name is the text after the tag up to its first '.', or to the end when there is none |
| Serializer.BeforeDotUnique | ENSDF_to_Gamma_Paths.py:94-99 | no other prefix of the text after the tag is free of '.' and stops at a '.' or at the end |
| Serializer.ValueToDecimal | ENSDF_to_Gamma_Paths.py:90-100 | the character loop from index 1 computes that name |
| Serializer.EntrySuffix | ENSDF_to_Gamma_Paths.py:109-111 | a gamma entry adds "_" + its name + "g" to the file name, and any other entry adds nothing |
| Serializer.FileName | ENSDF_to_Gamma_Paths.py:106-112 | the file name starts with nuclei + "_" and ends with ".ens" |
| Serializer.BuildFileName | ENSDF_to_Gamma_Paths.py:106-112 | the loop over the entries builds nuclei + "_" + level name + "L", one suffix per gamma entry in path order, then ".ens" |
| Serializer.GammaSuffixAppend | ENSDF_to_Gamma_Paths.py:108-111 | the suffix of two runs of entries is the suffix of the first followed by that of the second |
| Serializer.Body | ENSDF_to_Gamma_Paths.py:114 | `lines[:-1]` is every line but the last, in order |
| Serializer.Commented | ENSDF_to_Gamma_Paths.py:118 | a commented line has the same length, 'c' in column 6 and every other column unchanged |
| Serializer.CommentedTwice | ENSDF_to_Gamma_Paths.py:118 | commenting a commented line changes nothing |
| Serializer.AnnotateLineSpec | ENSDF_to_Gamma_Paths.py:115-118 | a written line has the input's length and columns except column 6, which is kept when the key is an entry of the path and is 'c' otherwise |
| Serializer.KeyKept | ENSDF_to_Gamma_Paths.py:115-118 | writing a line leaves its key alone |
| Serializer.AnnotateIdempotent | ENSDF_to_Gamma_Paths.py:115-118 | annotating a written line again for the same path writes the same line |
| Serializer.AnnotateKeeps | ENSDF_to_Gamma_Paths.py:115-118 | a line is written unchanged exactly when its key is in the path or it already has 'c' in column 6 |
| Serializer.AnnotateLines | ENSDF_to_Gamma_Paths.py:114-118 | the loop writes every line but the last, each annotated for the path |
| Serializer.WrittenLines | ENSDF_to_Gamma_Paths.py:114-118 | a file holds one line per input line but the last, each as long as its input line, and differs from it at most in column 6 as above |
| Serializer.WritePath | ENSDF_to_Gamma_Paths.py:106-119 | one round of the loop over the paths yields the file name and the lines for that path |
| Serializer.WritePaths | ENSDF_to_Gamma_Paths.py:103-121 | one file per path, in the order of the paths, file k being the output for path k |
| Pipeline.NoLevelIsNoWord | ENSDF_to_Gamma_Paths.py:54 | the sentinel holds a space, so no field of a line equals it |
| Pipeline.ExtractedTable | ENSDF_to_Gamma_Paths.py:32-45 | every key of the dict is a field, and no key is stored under the sentinel |
| Pipeline.ShapedNameable | ENSDF_to_Gamma_Paths.py:106-111 | a finished path from a start with a non-empty level, over a dict with non-empty keys, has the tags and energies `write_paths` reads |
| Pipeline.AllPathsNameable | ENSDF_to_Gamma_Paths.py:103-112 | with decimal levels and non-empty keys, every path `path_finder` returns can be handed to `write_paths` |

## Left out

- `readin` (lines 12-17), the file writes of `write_paths` and the `print`
  calls of `path_finder` are I/O. The model takes the lines as a parameter,
  and the files come back as values (`OutputFile`).
- `set_up` and `run` (lines 78-87 and 124-129) only chain the modelled
  functions and do I/O. `Pipeline` states how the results of one function
  meet the demands of the next.
- A later file with the same name overwrites an earlier one on disk. This is
  not modelled: the model returns every file in order.
- `write_paths` keeps an unused counter and returns 0. This is not modelled:
  `WritePaths` returns the files.
- Reconstructor.PathFinder: the loop `while nlvl != '0.0'` can run forever.
  The model allows each walk `fuel` passes and returns `None` when one walk
  needs more (`WalkMoreFuel` shows that more fuel does not change a finished
  walk).
- Reconstructor.FindNextLevel: it requires the level, the gamma and every
  entry of the levels to be decimals (`IsDecimal`). The loop only calls
  `float()` on the levels up to the first one inside the window, so the
  script also accepts a list with a non-numeric level such as "X" or "0+X"
  after that point; the model excludes such lists.
- Reconstructor.PathFinder: it requires `Walkable`, whose `AllDecimal(levels)`
  demands a decimal for every level. The script reads only the levels the
  walks search up to their first match and the levels that start walks, so a
  level list holding a non-numeric entry the walks never reach, such as "X",
  works in the script and is excluded by the model.
- Builtins.IsDecimal: it accepts an optional sign, digits and at most one
  '.'. Python's `float()` also accepts surrounding white space, underscores
  between digits ("1_0"), exponents, "inf" and "nan"; the model rejects
  those strings.
- Builtins.Val: `float()` is modelled as an exact rational. Binary
  floating-point rounding is not modelled, so a window test whose outcome
  depends on rounding at the edge of the window may differ from the script.
- Builtins.IsSpace: white space is the set of characters Python's
  `str.isspace()` accepts. Unicode normalisation and encodings are not
  modelled.
- Extractor.LevelGrab, Extractor.GammaBuilder, Serializer.ValueToDecimal and
  Serializer.WritePaths require the fields and columns the script indexes
  (`LevelReadable`, `GammaReadable`, `Nameable`, `Annotatable`). On shorter
  lines Python raises `IndexError`; the model leaves that error path out.
- The column layout of ENSDF records beyond the columns the script reads is
  not modelled.
