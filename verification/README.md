# FlareDrive upload naming, modelled in Dafny

FlareDrive is a web file manager. Two of its dialogs put new files into the
current directory, and each one renames files so that nothing already in the
directory is overwritten:

- The **upload drawer** (`src/UploadDrawer.tsx`) handles camera capture, the
  image/video picker and the generic file picker. It takes a snapshot of the
  directory's names: the last `/` piece of every listing key. Then it walks
  the picked files in order. A file whose name is taken becomes
  `base (n)ext`, where the cut is at the last dot and n >= 1 is the smallest
  counter whose name is free. Each chosen name is added to the snapshot, so
  later files of the same selection cannot reuse it. Comparison is exact and
  case-sensitive.
- The **text pad** (`TextPadDrawer.tsx`) saves a typed note as a single
  `text/plain` file. Its snapshot is lower-cased, and it compares the
  lower-cased name against it. A free name is kept in its own casing. A taken
  name becomes `base<n>ext` with no separator. A name without a dot gets
  `.txt` as the extension of the renamed result, but not when it is kept
  unchanged. Blank notes are not saved. After a save the form goes back to
  empty text and the name `note.txt`.

The two renamers are modelled separately, because they differ in suffix
format, case policy and the missing-extension case. Modules:

- `Seqs` (`seqs.dfy`): `Option`, `Pop`, `Distinct`, `Without` (a list with
  one value dropped), and the pigeonhole lemma, proved with `Without`. The
  lemma says that pairwise distinct members of a list are no more numerous
  than the list.
- `Text` (`text.dfy`): models the JavaScript string operations the dialogs
  use: `lastIndexOf`, `split("/")`, a counter printed in a template literal,
  `toLowerCase` and `trim`.
- `Intake` (`intake.dfy`): browser files, upload tasks, and the calls a
  dialog makes (`uploadEnqueue`, `setOpen`, `onUpload`). These calls are
  returned as a list of `Effect` values, in call order.
- `UploadDrawer` (`upload_drawer.dfy`) and `TextPad` (`text_pad.dfy`): the two
  dialogs.

The directory listing that `fetchPath` returns is a parameter. It is an
`Option`, and `None` stands for a failed fetch. The transfer queue, the
drawer's host and the refresh callback appear only as `Effect` values.

Each resolver has two definitions that are proved to agree:

- A declarative characterisation (`IsUniqueFileName`, `IsUniqueName`): the name
  itself if it is free; otherwise the candidate with the least free counter.
- A recursive function (`UniqueFileName`, `UniqueName`) that is proved to meet
  that characterisation. A lemma shows the characterisation admits only one result.

A method mirrors each source loop: the `while` of `getUniqueFileName`, the
`while (true)` of `getUniqueName`, and the `for` over the picked files. Each
method is proved equal to its function. The loops stop because of an explicit
measure, `|existing| + 1 - counter`. The measure is justified as follows.
Distinct counters print as distinct numerals (`Text.DecimalRoundTrip`), so
distinct counters give distinct candidates, and the pigeonhole lemma then
bounds how many of them can all be taken.

Some consequences of the code that are easy to miss:

- The two dialogs do not share a format or a case policy. The upload drawer
  writes `base (n)ext` and compares names exactly. The text pad writes
  `base<n>ext` and compares lower-cased names.
- In the text pad, a clashing name without a dot gets `.txt`, so `readme`
  against a directory holding `readme` becomes `readme1.txt`
  (`TextPad.FirstCounterFree`).
- The text pad's listing fetch has no error handler. A failed fetch leaves
  the previous snapshot in place (initially empty), and a later save resolves
  against it (`TextPad.LoadExistingNames`). The upload drawer awaits its
  fetch, so a failure there stops the handler before anything is enqueued
  (`UploadDrawer.HandleFileSelection`).
- A free name is kept as it is, even one such as `.bashrc` whose base (the
  part before the last dot) is empty (`UploadDrawer.UniqueFileName`,
  `TextPad.UniqueName`).

## Model

| member | source | states |
|---|---|---|
| `Seqs.Pop` | src/UploadDrawer.tsx:100 | `pop()` gives nothing exactly for an empty array; otherwise it gives the last element, and the array is its front followed by that element |
| `Text.LastIndexOf` | src/UploadDrawer.tsx:106 | `lastIndexOf` returns -1 or the position of the character, and no later position holds it |
| `Text.Split` | src/UploadDrawer.tsx:100 | `split("/")` returns at least one piece, and no piece contains the separator |
| `Text.JoinSplit` | src/UploadDrawer.tsx:100 | splitting loses nothing: joining the pieces with the separator gives back the key |
| `Text.SplitLast` | src/UploadDrawer.tsx:100 | the last piece of the split is the longest separator-free suffix of the key: a suffix without `/` that is the whole key or is preceded by a `/` |
| `Text.Decimal` | src/UploadDrawer.tsx:111 | the counter in the template is a non-empty string of digits with no leading zero |
| `Text.DecimalRoundTrip` | src/UploadDrawer.tsx:111 | reading the printed counter back as a number gives the counter |
| `Text.DecimalInjective` | src/UploadDrawer.tsx:113-116 | distinct counters print differently, which the termination argument needs |
| `Text.Lower` | TextPadDrawer.tsx:47 | `toLowerCase` keeps the length of the string |
| `Text.LowerChars` | TextPadDrawer.tsx:56 | `toLowerCase` turns each capital A-Z into its small letter and leaves every other character alone, so no capital is left |
| `Text.LowerAppend` | TextPadDrawer.tsx:56 | lower-casing a concatenation lower-cases each part |
| `Text.LowerIdempotent` | TextPadDrawer.tsx:36 | lower-casing an already lower-cased name changes nothing |
| `Text.LowerDecimal` | TextPadDrawer.tsx:55-56 | lower-casing leaves the counter's digits unchanged |
| `Text.LowerKeepsNonLetter` | TextPadDrawer.tsx:36 | lower-casing neither adds nor removes a character that is not a letter, such as `/` |
| `Text.TrimStart` | TextPadDrawer.tsx:64 | the result is a suffix of the input, every removed character is whitespace, and the result does not start with whitespace |
| `Text.TrimEnd` | TextPadDrawer.tsx:64 | the result is a prefix of the input, every removed character is whitespace, and the result does not end with whitespace |
| `Text.Trim` | TextPadDrawer.tsx:64 | `trim()` is no longer than the note, and a non-empty result neither starts nor ends with whitespace |
| `Text.TrimSpan` | TextPadDrawer.tsx:64 | `trim()` is one stretch of the note with only whitespace before it and after it |
| `Text.TrimEmptyIff` | TextPadDrawer.tsx:64 | `noteText.trim()` is empty exactly when every character of the note is whitespace |
| `UploadDrawer.FileKeyName` | src/UploadDrawer.tsx:99-101 | a snapshot entry is a suffix of its key that contains no `/` and is either the whole key or preceded by a `/`, so it is everything after the key's last `/` |
| `UploadDrawer.ExistingFiles` | src/UploadDrawer.tsx:99-101 | the snapshot has one entry per listing key, in order; each entry is that key's `FileKeyName` and contains no `/` |
| `UploadDrawer.SplitExtension` | src/UploadDrawer.tsx:106-108 | base + ext is the name; ext is empty exactly when the name has no dot; otherwise ext starts with the last dot and contains no other dot |
| `UploadDrawer.SplitExtensionOf` | src/UploadDrawer.tsx:106-108 | any base followed by a dot-led, otherwise dot-free ext (or a dot-free base alone) splits back into exactly that base and ext |
| `UploadDrawer.CandidateCounter` | src/UploadDrawer.tsx:111 | the candidate `${base} (${counter})${ext}` starts with the base and ` (`, ends with `)` and the ext, and the digits in between read back as the counter |
| `UploadDrawer.CandidateInjective` | src/UploadDrawer.tsx:110-116 | `base (m)ext` equals `base (n)ext` only when m = n |
| `UploadDrawer.CandidatesDistinct` | src/UploadDrawer.tsx:110-116 | the names the loop tries for counters 1..n are pairwise distinct |
| `UploadDrawer.TakenCountersBound` | src/UploadDrawer.tsx:113-116 | if counters 1..n all give taken names, then n <= the number of taken names, so the loop runs at most \|existing\|+1 times |
| `UploadDrawer.FirstFreeCounter` | src/UploadDrawer.tsx:110-116 | returns the least counter from its start whose candidate is free; every counter below it is taken; it is at most \|existing\|+1 |
| `UploadDrawer.UniqueFileName` | src/UploadDrawer.tsx:103-119 | the result is never in `existing`; a free name is returned unchanged; a taken one becomes `base (n)ext` with n >= 1 least such that the candidate is free |
| `UploadDrawer.UniqueFileNameDetermined` | src/UploadDrawer.tsx:103-119 | the characterisation `IsUniqueFileName` admits one result only, so it pins down `getUniqueFileName` completely |
| `UploadDrawer.UniqueFileNameIsLeastFree` | src/UploadDrawer.tsx:104-118 | for a taken name, whichever n >= 1 has a free candidate while every smaller counter's is taken, the result is `base (n)ext` |
| `UploadDrawer.UniqueFileNameIdempotent` | src/UploadDrawer.tsx:104 | resolving a resolved name against the same snapshot returns it unchanged |
| `UploadDrawer.UniqueFileNameKeepsExtension` | src/UploadDrawer.tsx:106-111 | the result's extension (from its last dot) is the proposed name's, and it has a dot exactly when the proposed name does |
| `UploadDrawer.GetUniqueFileName` | src/UploadDrawer.tsx:103-119 | the `while` loop, with termination measure and minimality invariant, returns exactly `UniqueFileName`, a name not in `existing` |
| `UploadDrawer.RenameAll` | src/UploadDrawer.tsx:121-128 | the fold keeps one output per input, its outputs are pairwise distinct, and none is in the initial snapshot |
| `UploadDrawer.RenameAllAppend` | src/UploadDrawer.tsx:123-128 | renaming a + b renames a, then renames b against the snapshot plus a's chosen names |
| `UploadDrawer.RenameAllSnoc` | src/UploadDrawer.tsx:123-128 | one more file appends its resolution against the snapshot plus all names chosen so far |
| `UploadDrawer.RenameAllAt` | src/UploadDrawer.tsx:123-127 | output i is input i resolved against the snapshot followed by outputs 0..i-1 |
| `UploadDrawer.RenameAllKeepsFreeNames` | src/UploadDrawer.tsx:121-128 | a file keeps its name exactly when neither the directory nor an earlier file of the selection holds it, so the first file with a free name keeps it |
| `UploadDrawer.RenameAllPrefix` | src/UploadDrawer.tsx:121-128 | in-order processing: the first i outputs depend only on the first i inputs |
| `UploadDrawer.RenameAllNext` | src/UploadDrawer.tsx:123-128 | one pass of the loop body: the names chosen for the first i + 1 files are those for the first i plus file i's name resolved against the snapshot grown by them |
| `UploadDrawer.RenameSelection` | src/UploadDrawer.tsx:121-128 | the `for` loop renames the files as `RenameAll` does and keeps each file's type and contents |
| `UploadDrawer.HandleFileSelection` | src/UploadDrawer.tsx:96-132 | with no file list or a failed listing, nothing happens; otherwise one enqueue of one task per file, for `cwd`, named as `RenameAll` renames the picked names against the listing (so distinct and absent from the listing), with the same type and contents, then `setOpen(false)`, then `onUpload()` |
| `UploadDrawer.RepeatedTakenNameRenaming` | src/UploadDrawer.tsx:121-128 | a taken name picked twice, into a directory where `base (1)ext` and `base (2)ext` are free, yields exactly those two, in that order |
| `UploadDrawer.RepeatedNameRenaming` | src/UploadDrawer.tsx:121-128 | one name picked three times into a directory holding none of name, `base (1)ext`, `base (2)ext` yields exactly those three, in that order |
| `TextPad.InitialState` | TextPadDrawer.tsx:28-30 | the drawer starts with no text, the name `note.txt` and an empty snapshot |
| `TextPad.ExistingName` | TextPadDrawer.tsx:36 | a snapshot entry is the lower-cased form of the key's suffix that has no `/` and is either the whole key or preceded by a `/`; it contains no `/` and is already lower case |
| `TextPad.ExistingNames` | TextPadDrawer.tsx:36 | the snapshot has one entry per listing key, in order; each entry is that key's `ExistingName`, contains no `/` and is lower case |
| `TextPad.LoadExistingNames` | TextPadDrawer.tsx:33-40 | an open drawer with a successful fetch replaces the snapshot by the listing's names; otherwise the snapshot is kept; the form never changes |
| `TextPad.SplitNoteName` | TextPadDrawer.tsx:43-45 | a dotted name splits at its last dot into base + ext; a dot-free name is the base and `.txt` is the ext |
| `TextPad.NoteCandidateCounter` | TextPadDrawer.tsx:55 | the candidate `${base}${counter}${ext}` starts with the base, ends with the ext, and the digits in between read back as the counter |
| `TextPad.NoteCandidateInjective` | TextPadDrawer.tsx:55-56 | `base<m>ext` and `base<n>ext` differ after lower-casing unless m = n |
| `TextPad.LoweredNoteCandidatesDistinct` | TextPadDrawer.tsx:54-60 | the lower-cased names the loop tries for counters 1..n are pairwise distinct |
| `TextPad.TakenNoteCountersBound` | TextPadDrawer.tsx:54-60 | if counters 1..n all give taken lower-cased names, then n <= the snapshot size, so the loop runs at most \|existingNames\|+1 times |
| `TextPad.FirstFreeNoteCounter` | TextPadDrawer.tsx:54-60 | returns the least counter from its start whose lower-cased candidate is free; every counter below it is taken |
| `TextPad.UniqueName` | TextPadDrawer.tsx:42-61 | the lower-cased result is never in the snapshot; a name free under lower-casing is returned in its own casing; otherwise it becomes `base<n>ext` with n >= 1 least |
| `TextPad.UniqueNameDetermined` | TextPadDrawer.tsx:42-61 | the characterisation `IsUniqueName` admits one result only, so it pins down `getUniqueName` completely |
| `TextPad.UniqueNameExtension` | TextPadDrawer.tsx:43-58 | a free name gets no `.txt`; a renamed one starts with the base and ends with the ext, and a dot-free name is renamed to itself + digits + `.txt` |
| `TextPad.GetUniqueName` | TextPadDrawer.tsx:42-61 | the `while (true)` loop, with termination measure and minimality invariant, returns exactly `UniqueName` |
| `TextPad.FirstCounterFree` | TextPadDrawer.tsx:43-58 | when the first candidate is free the counter is 1; a clashing dot-free name becomes name + `1.txt` |
| `TextPad.IsBlank` | TextPadDrawer.tsx:64 | `!noteText.trim()` holds exactly when every character of the note is whitespace |
| `TextPad.SaveNote` | TextPadDrawer.tsx:63-74 | an all-whitespace note leaves the state unchanged and makes no call; otherwise one `text/plain` task holding the note, named `getUniqueName(noteName)` (free under lower-casing), for `cwd`, then `onUpload()`, then `setOpen(false)`; text resets to "" and name to `note.txt`, and the snapshot is kept |
| `TextPad.InitialStateSavesNothing` | TextPadDrawer.tsx:28-29 | the drawer starts with empty text and the name `note.txt`, and saving in that state does nothing |
| `TextPad.SaveTwiceUploadsOnce` | TextPadDrawer.tsx:64-73 | a save clears the text, so a second save straight after uploads nothing |

## Left out

- React and MUI rendering: `IconCaptionButton`, `UploadFab`, the drawers'
  layout and the `useCallback`/`useMemo`/`useState` wiring. They carry no
  behaviour beyond what is modelled.
- The DOM file input: the `accept` and `capture` strings per action, `click`,
  and how `onchange` is attached. The picked files arrive as an
  `Option<seq<LocalFile>>`.
- The Create Folder button (src/UploadDrawer.tsx:178-182). It only calls
  `createFolder` and `onUpload` and does no naming.
- `fetchPath`, `uploadEnqueue`, `createFolder` and the transfer they start.
  They are not part of this model. The listing is a parameter and the calls
  are returned as effects.
- Asynchronous timing: a listing that arrives after a save, and snapshots
  that go stale between selection and enqueue. These are concurrency
  concerns of the host.
- The `lastModified` stamp that `new File(...)` gives a renamed file. It
  comes from the clock.
- `Text.Lower`: maps only the ASCII letters A-Z. JavaScript's full Unicode
  case mapping (including changes of length) is not modelled.
- JavaScript strings are UTF-16 code units. Here a string is a sequence of
  Unicode scalar values, which coincide for names in the Basic Multilingual
  Plane.
- The Save button's `disabled={!noteText.trim()}` (TextPadDrawer.tsx:108)
  applies the same guard that `TextPad.SaveNote` models. It is not modelled
  separately.
