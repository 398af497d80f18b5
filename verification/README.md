# DiffMorpher `handleFiles`, modelled in Dafny

DiffMorpher takes the difference between a source file and a target file and
replays it, as a list of position-anchored patch records, onto a third
"patch" file. The result goes to an output file. This project models the
in-memory part of `handleFiles` in `main.cpp`, for one source/target/patch
triple:

- reading the three buffers, with auto mode standing in for missing files;
- the decision to delete the output, to skip an unchanged file, or to copy
  binary or empty input through verbatim;
- blanking a missing patch file's stand-in to a fill character;
- reconciling the working copy's length with the source (truncate or pad
  under force, fail otherwise);
- replaying the patch records with a cursor reset to each record's `start1`;
- the final check that the result is as long as the target.

Text is a sequence of UTF-16 code units (`Text.CodeUnit`), because
`QString::length()` counts code units. File contents are byte sequences
(`Text.Byte`). Files:

- `wrappers.dfy`: `Option` and `Result`.
- `text.dfy`: code units, bytes, `Left` (QString::left) and `Repeat` (QString::fill).
- `blanking.dfy`: blanking, as written and corrected (see Findings).
- `reconciliation.dfy`: the size check and the truncate/pad step.
- `replay.dfy`: the patch datatypes, the replay as functions, and the nested
  replay loop as a method proved against them.
- `morph.dfy`: the whole call, both as a function (`Morph`) and as a method
  that follows the code's steps (`HandleFiles`).

In every outcome except `Fail`, `handleFiles` returns 0. `Fail` is return code 1.

Two collaborators are parameters of the model:

- `decode` stands for UTF-8 decoding (`QString::fromUtf8`).
- `makePatches` stands for `diff_match_patch::patch_make`. The only
  assumption about the records it returns is that replaying them keeps every
  remove and insert inside the working copy (`Morph.Replayable`).

Notes on the code's behaviour:

- Diffs carry text, not lengths. A DELETE removes as many units as its text
  is long, and that text is never compared with the working copy.
- Lengths and offsets count UTF-16 code units, not code points.
- An empty source is copied through verbatim, like binary input. So "empty
  source, missing patch file, auto mode" writes the target bytes. No blanking
  or patching happens.
- The fill is a string. Blanking uses its first unit, or nothing when it is
  empty (`fill.left(1)`). Padding reads `fill.at(0)`.
- Every failure returns 1. The model's `Failure` values name the reason.
  `LengthMismatch(targetLength, outLength)` carries the two lengths the
  final length check logs. `SizeMismatch(patchLength, sourceLength)` carries
  the two lengths the size check compares, which the code does not log.

## Model

| member | source | states |
|---|---|---|
| `Morph.Resolve` | main.cpp:21-64 | Without auto mode, the first unreadable file (source, then target, then patch) fails the call. Otherwise a missing source is empty, a missing target is flagged, and a missing patch file becomes the source with blanking on. |
| `Morph.ContainsNul` | main.cpp:82 | True exactly when a NUL byte sits at some index below 8000. |
| `Morph.Morph` | main.cpp:65-139 | Unreadable-file failure iff a file is missing without auto. Output removal iff the target is missing under auto. No output iff ignore is on and source bytes equal target bytes. Target bytes copied verbatim iff source is empty or any input has an early NUL byte. Size failure only without force, with unequal lengths. Length failure only when lengths differ. A written patched text always has the target's length. |
| `Morph.PatchRouteOutcome` | main.cpp:92-139 | On the text route, the size check fails iff force is off and the working copy's length differs from the source's. The call writes output iff the size check passes and source length + inserted − deleted equals target length. When the working copy already has the source's length, the output is the replay of that copy itself. |
| `Morph.HandleFiles` | main.cpp:19-140 | The step-by-step procedure (read, decide, blank, truncate or pad in place, replay, length check) yields exactly `Morph`'s outcome. |
| `Blanking.Replacement` | main.cpp:90 | `fill.left(1)`: the fill's first unit when it has one, and the empty string for an empty fill. |
| `Blanking.Blank` | main.cpp:90 | With a non-empty fill: same length, every CR/LF kept at its position, every other unit replaced by the fill's first unit. With an empty fill: only the input's line ends remain, in the input's order. The line end at index i lands at index LineEndCount(s[..i]). |
| `Blanking.BlankIdempotent` | main.cpp:90 | Blanking a blanked text changes nothing. |
| `Blanking.BlankAsWritten` | main.cpp:90 | Code-point blanking never lengthens a text. With a non-empty fill it is exactly PairCount(s) units shorter, one per surrogate pair matched from the left. Every unit of the result is a line end or the fill's first unit. When that fill unit is not itself a line end, the result has as many line ends as the input. |
| `Blanking.BlankAsWrittenSplitsAtLineEnd` | main.cpp:90 | A line end is never matched, so code-point blanking keeps it and blanks the text before and after it separately. |
| `Blanking.BlankAsWrittenWithoutLineEnds` | main.cpp:90 | With a non-empty fill, every unit that code-point blanking makes of a text without line ends is the fill's first unit, even when that unit is CR or LF. With the split at line ends, this fixes the whole result. |
| `Blanking.BlankAsWrittenKeepsLineEndsInPlace` | main.cpp:90 | Every line end of the input appears in the code-point blanking, in order, right after the blanking of the text before it. With a non-empty fill, that position is its index minus the surrogate pairs before it. |
| `Blanking.BlankAsWrittenAgreesWithoutPairs` | main.cpp:90 | Without surrogate pairs, code-point blanking equals per-unit blanking. |
| `Blanking.BlankAsWrittenShortens` | main.cpp:90 | With a non-empty fill, code-point blanking shortens any text that holds a surrogate pair. |
| `Blanking.BlankAsWrittenEmojiCounterexample` | main.cpp:90 | U+1F600 (D83D DE00) blanks to one space as written, to two under per-unit blanking. |
| `Reconciliation.Reconcile` | main.cpp:92-109 | Equal lengths leave the working copy untouched. Unequal lengths without force fail. With force the result has the source's length. A longer copy becomes its prefix; a shorter one stays a prefix, followed by `fill.at(0)` in every added position. |
| `Reconciliation.BlankedSourcePassesSizeCheck` | main.cpp:90-108 | A source blanked one unit at a time with a non-empty fill passes the size check untouched, with or without force. |
| `Reconciliation.BlankAsWrittenFailsSizeCheck` | main.cpp:90-108 | As written, a blanked source holding a surrogate pair fails the size check without force. |
| `Text.Repeat` | main.cpp:101 | `QString().fill(c, n)` has n units, each c. |
| `Text.Left` | main.cpp:82 | `left(n)` is the prefix of length min(n, length). |
| `Replay.Step` | main.cpp:117-133 | A diff has an effect exactly when its remove or insert stays inside the working copy. EQUAL always does. |
| `Replay.StepEffect` | main.cpp:117-133 | DELETE keeps the cursor and closes a gap of `text.length()` units after it. INSERT puts the text at the cursor and moves the cursor past it. EQUAL moves the cursor and changes nothing. Nothing before the cursor changes. |
| `Replay.RunDiffs` | main.cpp:115-134 | After a record's diffs, the length grows by inserted text and shrinks by deleted text. The cursor sits at start1 plus inserted plus skipped text. |
| `Replay.RunDiffsKeepsPrefix` | main.cpp:115-134 | A record never changes the working copy before its start1. |
| `Replay.Apply` | main.cpp:114-135 | After the whole patch list, the length is the reconciled length plus all inserted minus all deleted text. |
| `Replay.ApplyConcat` | main.cpp:114 | Records are replayed strictly in order: replaying ps then qs is replaying ps + qs. |
| `Replay.ApplyKeepsPrefix` | main.cpp:114-135 | Records whose start1 is at least k never change the first k units. |
| `Replay.RunDiffsIgnoresDeletedText` | main.cpp:120-123 | A record's replay depends on a DELETE's length only, not on its text. |
| `Replay.ApplyIgnoresDeletedText` | main.cpp:120-123 | The same holds for a whole patch list. |
| `Replay.ReplayPatches` | main.cpp:113-135 | The nested loops, with the cursor reset per record and the working copy updated in place, compute `Apply`. The result's length is the initial length plus inserted minus deleted text. |

## Left out

- Reading files (`QFile`, the `QFileInfo` readability checks, main.cpp:21-64): a file's outcome is given as `Some(bytes)` or `None`.
- Deleting the output file and its failure (main.cpp:66-73): the model stops at the outcome `RemoveOutput`.
- Creating the output directory and writing the output (main.cpp:142-157): I/O. Their failures, which also return 1, are not modelled.
- UTF-8 decoding (main.cpp:87-89): the `decode` parameter.
- UTF-8 encoding of the result (main.cpp:140): I/O. `WritePatched` carries the text.
- `diff_match_patch::patch_make` (main.cpp:111): a library whose code is not part of this model. It is the `makePatches` parameter. A patch record's `length1` and `length2` are only logged and are not modelled. No source-to-target round trip is claimed.
- Command-line parsing, argument validation, help and version output (main.cpp:162-233): plumbing over external state.
- Directory traversal, prefix stripping and de-duplication (main.cpp:235-251): filesystem walking.
- `qDebug` trace output: advisory logging only.
- Morph.Morph: the requires `Replayable` excludes two Qt calls whose behaviour the code does not define. One is `QString::remove` or `insert` outside the string. The other is `fill.at(0)` on an empty fill string.
- Reconciliation.Reconcile: its requires excludes padding with an empty fill string, for the same reason.
- Replay.ReplayPatches: its requires excludes remove or insert outside the working copy.
- Lengths and `targetIndex` are 32-bit `int` in the code. They are unbounded here; overflow is not modelled.
- Morph.Morph: blanks per code unit with `Blanking.Blank`, the corrected definition. The code's code-point blanking is `Blanking.BlankAsWritten` (see Findings).
- Morph.HandleFiles: the same corrected blanking as `Morph.Morph`.
- Blanking.BlankAsWritten: counts a lone surrogate as one character. Such units cannot come out of `QString::fromUtf8`.

## Findings

| source | as written | input that shows it | evidently intended | confidence | as-written member | corrected member |
|---|---|---|---|---|---|---|
| main.cpp:90 | `QRegularExpression("[^\r\n]")` matches one code point at a time, so a surrogate pair (a character outside the Basic Multilingual Plane) is replaced by ONE fill unit. The blanked copy is then shorter than the source it stands in for. | Source text "😀" (units D83D DE00), patch file missing, auto mode, no force. Blanking gives one unit against a source length of two, so the size check returns 1 ("patch file size differs"). With force, the copy is padded at the end, and every later offset is shifted. | The blanked copy has the source's shape: one fill unit per code unit, line ends in place. | medium, not executed | `Blanking.BlankAsWritten` (see `Blanking.BlankAsWrittenKeepsLineEndsInPlace`, `Blanking.BlankAsWrittenEmojiCounterexample`, `Blanking.BlankAsWrittenShortens`, `Reconciliation.BlankAsWrittenFailsSizeCheck`) | `Blanking.Blank` (see `Blanking.BlankIdempotent`, `Reconciliation.BlankedSourcePassesSizeCheck`; used by `Morph.Morph` and `Morph.HandleFiles`) |
