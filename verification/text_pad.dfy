/** The text-pad drawer: the user types a note and a file name, and saving
    uploads the note as one `text/plain` file. Its renamer differs from the
    upload drawer's: names are compared lower-cased, a clash is resolved as
    `base<n>ext` with no separator, and a name without a dot gets `.txt` as
    the extension of any renamed result. */
module TextPad {
  import opened Seqs
  import opened Text
  import opened Intake

  /** The drawer's form and its snapshot of the directory's names. */
  datatype NoteState = NoteState(noteText: string, noteName: string, existingNames: seq<string>)

  const DefaultNoteName: string := "note.txt"

  /** The state the drawer starts in: nothing typed, the default name and no
      snapshot yet. */
  function InitialState(): (s: NoteState)
    ensures |s.noteText| == 0
    ensures s.noteName == DefaultNoteName && |s.existingNames| == 0
  {
    NoteState("", DefaultNoteName, [])
  }

  // ---------------------------------------------------------------------------
  // The lower-cased snapshot

  /** `key.split("/").pop()?.toLowerCase() || ""`: the lower-cased longest
      suffix of the key without a slash. `pop` never finds the piece list
      empty, and `|| ""` only replaces the empty string by itself. */
  function ExistingName(key: string): (name: string)
    ensures '/' !in name
    ensures Lower(name) == name
    ensures |name| <= |key| && name == Lower(key[|key| - |name|..])
    ensures |name| == |key| || key[|key| - |name| - 1] == '/'
  {
    SplitLast(key, '/');
    match Pop(Split(key, '/'))
    case Some(segment) =>
      LowerKeepsNonLetter(segment, '/');
      LowerIdempotent(segment);
      Lower(segment)
    case None => ""
  }

  /** The listing of the directory turned into the snapshot, one entry per
      key and in listing order. */
  function ExistingNames(keys: seq<string>): (names: seq<string>)
    ensures |names| == |keys|
    ensures forall i :: 0 <= i < |keys| ==>
              names[i] == ExistingName(keys[i]) && '/' !in names[i] && Lower(names[i]) == names[i]
  {
    seq(|keys|, i requires 0 <= i < |keys| => ExistingName(keys[i]))
  }

  /** The effect that fetches the listing. While the drawer is open and the
      fetch succeeds, the listing's names replace the snapshot; a closed
      drawer or a failed fetch (`listing` is `None`) leaves the snapshot as it
      was. The form is never touched. */
  function LoadExistingNames(s: NoteState, open: bool, listing: Option<seq<string>>): (s': NoteState)
    ensures s'.noteText == s.noteText && s'.noteName == s.noteName
    ensures !open || listing.None? ==> s'.existingNames == s.existingNames
    ensures open && listing.Some? ==>
              var keys := listing.value;
              |s'.existingNames| == |keys|
              && forall i :: 0 <= i < |keys| ==> s'.existingNames[i] == ExistingName(keys[i])
  {
    if open && listing.Some? then s.(existingNames := ExistingNames(listing.value)) else s
  }

  // ---------------------------------------------------------------------------
  // Resolving the note's name

  /** The note name cut at its last dot; with no dot the whole name is the
      base and the extension defaults to `.txt`. */
  function SplitNoteName(filename: string): (p: NameParts)
    ensures '.' !in filename ==> p.base == filename && p.ext == ".txt"
    ensures '.' in filename ==>
              p.base + p.ext == filename && |p.ext| >= 1 && p.ext[0] == '.' && '.' !in p.ext[1..]
  {
    var dotIndex := LastIndexOf(filename, '.');
    var base := if dotIndex != -1 then filename[..dotIndex] else filename;
    var ext := if dotIndex != -1 then filename[dotIndex..] else ".txt";
    NameParts(base, ext)
  }

  /** The candidate `${base}${counter}${ext}`. */
  function NoteCandidate(base: string, n: nat, ext: string): string
  {
    base + Decimal(n) + ext
  }

  /** A candidate is the base, a numeral and the extension, and the numeral
      reads back as the counter. */
  lemma NoteCandidateCounter(base: string, n: nat, ext: string)
    ensures var r := NoteCandidate(base, n, ext);
            |r| >= |base| + |ext| + 1
            && r[..|base|] == base && r[|r| - |ext|..] == ext
            && var digits := r[|base|..|r| - |ext|];
               (forall i :: 0 <= i < |digits| ==> IsDigit(digits[i])) && DigitsValue(digits) == n
  {
    DecimalRoundTrip(n);
    var r := NoteCandidate(base, n, ext);
    assert r[|base|..|r| - |ext|] == Decimal(n);
  }

  /** Distinct counters give candidates that differ even after lower-casing. */
  lemma NoteCandidateInjective(base: string, ext: string, m: nat, n: nat)
    ensures Lower(NoteCandidate(base, m, ext)) == Lower(NoteCandidate(base, n, ext)) ==> m == n
  {
    forall k: nat
      ensures Lower(NoteCandidate(base, k, ext)) == Lower(base) + Decimal(k) + Lower(ext)
    {
      LowerAppend(base + Decimal(k), ext);
      LowerAppend(base, Decimal(k));
      LowerDecimal(k);
    }
    if Lower(NoteCandidate(base, m, ext)) == Lower(NoteCandidate(base, n, ext)) {
      SameAffixes(Lower(base), Decimal(m), Decimal(n), Lower(ext));
      DecimalInjective(m, n);
    }
  }

  /** The lower-cased candidates for counters 1..n, in order. */
  function LoweredNoteCandidates(base: string, ext: string, n: nat): (cands: seq<string>)
    ensures |cands| == n
  {
    seq(n, i requires 0 <= i < n => Lower(NoteCandidate(base, i + 1, ext)))
  }

  /** The lower-cased candidates for counters 1..n are pairwise distinct. */
  lemma LoweredNoteCandidatesDistinct(base: string, ext: string, n: nat)
    ensures Distinct(LoweredNoteCandidates(base, ext, n))
  {
    var cands := LoweredNoteCandidates(base, ext, n);
    forall i, j | 0 <= i < j < n
      ensures cands[i] != cands[j]
    {
      NoteCandidateInjective(base, ext, i + 1, j + 1);
    }
  }

  /** Pigeonhole for the loop: if counters 1..n all give taken names, then n is
      at most the size of the snapshot. */
  lemma TakenNoteCountersBound(base: string, ext: string, names: seq<string>, n: nat)
    requires forall k :: 1 <= k <= n ==> Lower(NoteCandidate(base, k, ext)) in names
    ensures n <= |names|
  {
    var cands := LoweredNoteCandidates(base, ext, n);
    LoweredNoteCandidatesDistinct(base, ext, n);
    forall x | x in cands
      ensures x in names
    {
      var i :| 0 <= i < n && cands[i] == x;
    }
    DistinctMembersBound(cands, names);
  }

  /** The first counter from `n` on whose lower-cased candidate is free, given
      that every counter below `n` gives a taken one. */
  function FirstFreeNoteCounter(base: string, ext: string, names: seq<string>, n: nat): (m: nat)
    requires 1 <= n
    requires forall k :: 1 <= k < n ==> Lower(NoteCandidate(base, k, ext)) in names
    ensures n <= m <= |names| + 1
    ensures Lower(NoteCandidate(base, m, ext)) !in names
    ensures forall k :: 1 <= k < m ==> Lower(NoteCandidate(base, k, ext)) in names
    decreases |names| + 1 - n
  {
    if Lower(NoteCandidate(base, n, ext)) !in names then
      TakenNoteCountersBound(base, ext, names, n - 1);
      n
    else
      TakenNoteCountersBound(base, ext, names, n);
      FirstFreeNoteCounter(base, ext, names, n + 1)
  }

  /** Two counters that are each the least with a free lower-cased candidate
      are equal. */
  lemma LeastFreeNoteCounterUnique(base: string, ext: string, names: seq<string>, m: nat, n: nat)
    requires Lower(NoteCandidate(base, m, ext)) !in names && Lower(NoteCandidate(base, n, ext)) !in names
    requires forall k :: 1 <= k < m ==> Lower(NoteCandidate(base, k, ext)) in names
    requires forall k :: 1 <= k < n ==> Lower(NoteCandidate(base, k, ext)) in names
    requires 1 <= m && 1 <= n
    ensures m == n
  {
  }

  /** What `getUniqueName(filename)` must return against the snapshot `names`:
      the name itself, in its own casing, when its lower-cased form is free;
      otherwise `base<n>ext` for the smallest n >= 1 whose lower-cased
      candidate is free. */
  ghost predicate IsUniqueName(filename: string, names: seq<string>, r: string)
  {
    if Lower(filename) !in names then r == filename
    else
      var p := SplitNoteName(filename);
      exists n: nat ::
        1 <= n && r == NoteCandidate(p.base, n, p.ext) && Lower(r) !in names
        && forall k :: 1 <= k < n ==> Lower(NoteCandidate(p.base, k, p.ext)) in names
  }

  /** `getUniqueName` as a function. */
  function UniqueName(filename: string, names: seq<string>): (r: string)
    ensures Lower(r) !in names
    ensures IsUniqueName(filename, names, r)
  {
    if Lower(filename) !in names then filename
    else
      var p := SplitNoteName(filename);
      var n := FirstFreeNoteCounter(p.base, p.ext, names, 1);
      NoteCandidate(p.base, n, p.ext)
  }

  /** The description above admits exactly one result. */
  lemma UniqueNameDetermined(filename: string, names: seq<string>, r: string)
    requires IsUniqueName(filename, names, r)
    ensures r == UniqueName(filename, names)
  {
    if Lower(filename) in names {
      var p := SplitNoteName(filename);
      var n :| 1 <= n && r == NoteCandidate(p.base, n, p.ext) && Lower(r) !in names
               && forall k :: 1 <= k < n ==> Lower(NoteCandidate(p.base, k, p.ext)) in names;
      var m := FirstFreeNoteCounter(p.base, p.ext, names, 1);
      LeastFreeNoteCounterUnique(p.base, p.ext, names, m, n);
    }
  }

  /** Where the extension of the result comes from: a free name is returned
      as it is (no `.txt` is added); a renamed name keeps the proposed name's
      extension, or ends in `.txt` when the proposed name has no dot, and in
      both cases starts with the proposed name's base. */
  lemma UniqueNameExtension(filename: string, names: seq<string>)
    ensures Lower(filename) !in names ==> UniqueName(filename, names) == filename
    ensures Lower(filename) in names ==>
              var r := UniqueName(filename, names);
              var p := SplitNoteName(filename);
              |p.base| + |p.ext| < |r| && r[..|p.base|] == p.base && r[|r| - |p.ext|..] == p.ext
    ensures Lower(filename) in names && '.' !in filename ==>
              var r := UniqueName(filename, names);
              r[..|filename|] == filename && r[|r| - 4..] == ".txt"
  {
    if Lower(filename) in names {
      var r := UniqueName(filename, names);
      var p := SplitNoteName(filename);
      var n := FirstFreeNoteCounter(p.base, p.ext, names, 1);
      assert r == p.base + Decimal(n) + p.ext;
    }
  }

  /** The loop of `getUniqueName`: try `base1ext`, `base2ext`, ... until the
      lower-cased candidate is not in the snapshot. */
  method GetUniqueName(filename: string, existingNames: seq<string>) returns (r: string)
    ensures r == UniqueName(filename, existingNames)
    ensures Lower(r) !in existingNames
  {
    var p := SplitNoteName(filename);
    var currentName := Lower(filename);
    var counter := 1;
    if currentName !in existingNames {
      return filename;
    }
    while true
      invariant 1 <= counter
      invariant forall k :: 1 <= k < counter ==> Lower(NoteCandidate(p.base, k, p.ext)) in existingNames
      decreases |existingNames| + 1 - counter
    {
      var newName := NoteCandidate(p.base, counter, p.ext);
      if Lower(newName) !in existingNames {
        UniqueNameDetermined(filename, existingNames, newName);
        return newName;
      }
      TakenNoteCountersBound(p.base, p.ext, existingNames, counter);
      counter := counter + 1;
    }
  }

  // ---------------------------------------------------------------------------
  // Saving

  /** The new state of the drawer and the calls a save made, in order. */
  datatype SaveResult = SaveResult(state: NoteState, effects: seq<Effect>)

  /** `!noteText.trim()`: the note has no visible character. */
  predicate IsBlank(text: string): (b: bool)
    ensures b <==> forall i :: 0 <= i < |text| ==> IsJsWhitespace(text[i])
  {
    TrimEmptyIff(text);
    Trim(text) == ""
  }

  /** `handleSaveNote`. A note made only of whitespace is not saved and nothing
      changes. Otherwise exactly one `text/plain` file holding the note, named
      by `getUniqueName(noteName)`, is enqueued for `cwd`; the refresh callback
      runs and the drawer closes; and the form returns to empty text and the
      default name while the snapshot is kept. */
  function SaveNote(s: NoteState, cwd: string): (out: SaveResult)
    ensures (forall i :: 0 <= i < |s.noteText| ==> IsJsWhitespace(s.noteText[i])) ==>
              out == SaveResult(s, [])
    ensures (exists i :: 0 <= i < |s.noteText| && !IsJsWhitespace(s.noteText[i])) ==>
              |out.effects| == 3 && out.effects[0].Enqueue? && |out.effects[0].tasks| == 1
              && out.effects[1] == OnUpload && out.effects[2] == SetOpen(false)
              && out.state == NoteState("", "note.txt", s.existingNames)
    ensures (exists i :: 0 <= i < |s.noteText| && !IsJsWhitespace(s.noteText[i])) ==>
              var task := out.effects[0].tasks[0];
              task.basedir == cwd && task.file.mimeType == "text/plain"
              && task.file.body == Typed(s.noteText)
              && task.file.name == UniqueName(s.noteName, s.existingNames)
              && Lower(task.file.name) !in s.existingNames
  {
    TrimEmptyIff(s.noteText);
    if IsBlank(s.noteText) then SaveResult(s, [])
    else
      var uniqueName := UniqueName(s.noteName, s.existingNames);
      var file := LocalFile(uniqueName, "text/plain", Typed(s.noteText));
      SaveResult(
        s.(noteText := "", noteName := DefaultNoteName),
        [Enqueue([UploadTask(file, cwd)]), OnUpload, SetOpen(false)])
  }

  /** The drawer starts with nothing to save. */
  lemma InitialStateSavesNothing(cwd: string)
    ensures InitialState().noteText == "" && InitialState().noteName == "note.txt"
    ensures SaveNote(InitialState(), cwd) == SaveResult(InitialState(), [])
  {
  }

  /** A save clears the text, so saving again at once uploads nothing. */
  lemma SaveTwiceUploadsOnce(s: NoteState, cwd: string)
    ensures var after := SaveNote(s, cwd).state;
            SaveNote(after, cwd) == SaveResult(after, [])
  {
  }

  /** When the name clashes but its first candidate is free, the counter is
      1; for a name without a dot that means `name1.txt` (so "readme" against
      a snapshot holding "readme" gives "readme1.txt"). */
  lemma FirstCounterFree(filename: string, names: seq<string>)
    requires Lower(filename) in names
    requires var p := SplitNoteName(filename); Lower(NoteCandidate(p.base, 1, p.ext)) !in names
    ensures var p := SplitNoteName(filename);
            UniqueName(filename, names) == NoteCandidate(p.base, 1, p.ext)
    ensures '.' !in filename ==> UniqueName(filename, names) == filename + "1.txt"
  {
    var p := SplitNoteName(filename);
    assert IsUniqueName(filename, names, NoteCandidate(p.base, 1, p.ext));
    UniqueNameDetermined(filename, names, NoteCandidate(p.base, 1, p.ext));
    assert Decimal(1) == "1";
  }
}
