/** The renaming done by the upload drawer when the user picks files (camera,
    image/video or any file): every picked file is renamed, in selection order,
    to a name that is neither in the directory listing nor given to an earlier
    file of the same selection. Names are compared exactly (case-sensitive) and
    a clash is resolved as `base (n)ext` with the smallest free n >= 1. */
module UploadDrawer {
  import opened Seqs
  import opened Text
  import opened Intake

  // ---------------------------------------------------------------------------
  // The snapshot of existing names

  /** The name of a listing entry, `key.split("/").pop()!`: the longest
      suffix of the key without a slash, that is, everything after the key's
      last slash (or the whole key when it has none). */
  function FileKeyName(key: string): (name: string)
    ensures '/' !in name
    ensures |name| <= |key| && name == key[|key| - |name|..]
    ensures |name| == |key| || key[|key| - |name| - 1] == '/'
  {
    SplitLast(key, '/');
    Pop(Split(key, '/')).value
  }

  /** The names in a directory listing, one per key and in listing order. */
  function ExistingFiles(keys: seq<string>): (names: seq<string>)
    ensures |names| == |keys|
    ensures forall i :: 0 <= i < |keys| ==> names[i] == FileKeyName(keys[i]) && '/' !in names[i]
  {
    seq(|keys|, i requires 0 <= i < |keys| => FileKeyName(keys[i]))
  }

  // ---------------------------------------------------------------------------
  // Resolving one name

  /** A file name cut at its last dot; with no dot the whole name is the base
      and the extension is empty. */
  function SplitExtension(filename: string): (p: NameParts)
    ensures p.base + p.ext == filename
    ensures p.ext == "" <==> '.' !in filename
    ensures p.ext != "" ==> p.ext[0] == '.' && '.' !in p.ext[1..]
  {
    var extIndex := LastIndexOf(filename, '.');
    if extIndex == -1 then NameParts(filename, "")
    else NameParts(filename[..extIndex], filename[extIndex..])
  }

  /** The cut is determined by the shape of the extension: any base followed
      by a dot-led, otherwise dot-free extension (or a dot-free base with no
      extension) splits back into exactly those parts. */
  lemma SplitExtensionOf(base: string, ext: string)
    requires (ext == "" && '.' !in base) || (ext != "" && ext[0] == '.' && '.' !in ext[1..])
    ensures SplitExtension(base + ext) == NameParts(base, ext)
  {
    var s := base + ext;
    if ext != "" {
      forall j | |base| < j < |s|
        ensures s[j] != '.'
      {
        assert s[j] == ext[1..][j - |base| - 1];
      }
      LastIndexOfTail(s, '.', |base|);
      assert s[..|base|] == base;
    } else {
      assert s == base;
    }
  }

  /** The candidate `${base} (${counter})${ext}`. */
  function Candidate(base: string, n: nat, ext: string): string
  {
    base + " (" + Decimal(n) + ")" + ext
  }

  /** A candidate is the base, " (", a numeral, ")" and the extension, and
      the numeral reads back as the counter. */
  lemma CandidateCounter(base: string, n: nat, ext: string)
    ensures var r := Candidate(base, n, ext);
            |r| >= |base| + |ext| + 4
            && r[..|base|] == base && r[|base|..|base| + 2] == " ("
            && r[|r| - |ext| - 1] == ')' && r[|r| - |ext|..] == ext
            && var digits := r[|base| + 2..|r| - |ext| - 1];
               (forall i :: 0 <= i < |digits| ==> IsDigit(digits[i])) && DigitsValue(digits) == n
  {
    DecimalRoundTrip(n);
    var r := Candidate(base, n, ext);
    assert r[|base| + 2..|r| - |ext| - 1] == Decimal(n);
  }

  /** Distinct counters give distinct candidates. */
  lemma CandidateInjective(base: string, ext: string, m: nat, n: nat)
    ensures Candidate(base, m, ext) == Candidate(base, n, ext) ==> m == n
  {
    if Candidate(base, m, ext) == Candidate(base, n, ext) {
      var p := base + " (";
      assert Candidate(base, m, ext) == p + Decimal(m) + (")" + ext);
      assert Candidate(base, n, ext) == p + Decimal(n) + (")" + ext);
      SameAffixes(p, Decimal(m), Decimal(n), ")" + ext);
      DecimalInjective(m, n);
    }
  }

  /** The candidates for counters 1..n, in order. */
  function Candidates(base: string, ext: string, n: nat): (cands: seq<string>)
    ensures |cands| == n
  {
    seq(n, i requires 0 <= i < n => Candidate(base, i + 1, ext))
  }

  /** The candidates for counters 1..n are pairwise distinct. */
  lemma CandidatesDistinct(base: string, ext: string, n: nat)
    ensures Distinct(Candidates(base, ext, n))
  {
    var cands := Candidates(base, ext, n);
    forall i, j | 0 <= i < j < n
      ensures cands[i] != cands[j]
    {
      CandidateInjective(base, ext, i + 1, j + 1);
    }
  }

  /** Pigeonhole for the loop: if counters 1..n all give taken names, then n is
      at most the number of taken names. */
  lemma TakenCountersBound(base: string, ext: string, existing: seq<string>, n: nat)
    requires forall k :: 1 <= k <= n ==> Candidate(base, k, ext) in existing
    ensures n <= |existing|
  {
    var cands := Candidates(base, ext, n);
    CandidatesDistinct(base, ext, n);
    forall x | x in cands
      ensures x in existing
    {
      var i :| 0 <= i < n && cands[i] == x;
    }
    DistinctMembersBound(cands, existing);
  }

  /** The first counter from `n` on whose candidate is free, given that every
      counter below `n` gives a taken candidate. */
  function FirstFreeCounter(base: string, ext: string, existing: seq<string>, n: nat): (m: nat)
    requires 1 <= n
    requires forall k :: 1 <= k < n ==> Candidate(base, k, ext) in existing
    ensures n <= m <= |existing| + 1
    ensures Candidate(base, m, ext) !in existing
    ensures forall k :: 1 <= k < m ==> Candidate(base, k, ext) in existing
    decreases |existing| + 1 - n
  {
    if Candidate(base, n, ext) !in existing then
      TakenCountersBound(base, ext, existing, n - 1);
      n
    else
      TakenCountersBound(base, ext, existing, n);
      FirstFreeCounter(base, ext, existing, n + 1)
  }

  /** Two counters that are each the least with a free candidate are equal. */
  lemma LeastFreeCounterUnique(base: string, ext: string, existing: seq<string>, m: nat, n: nat)
    requires Candidate(base, m, ext) !in existing && Candidate(base, n, ext) !in existing
    requires forall k :: 1 <= k < m ==> Candidate(base, k, ext) in existing
    requires forall k :: 1 <= k < n ==> Candidate(base, k, ext) in existing
    requires 1 <= m && 1 <= n
    ensures m == n
  {
  }

  /** What `getUniqueFileName(filename, existing)` must return: the name
      itself when it is free; otherwise `base (n)ext` for the smallest n >= 1
      whose candidate is free. */
  ghost predicate IsUniqueFileName(filename: string, existing: seq<string>, r: string)
  {
    if filename !in existing then r == filename
    else
      var p := SplitExtension(filename);
      exists n: nat ::
        1 <= n && r == Candidate(p.base, n, p.ext) && r !in existing
        && forall k :: 1 <= k < n ==> Candidate(p.base, k, p.ext) in existing
  }

  /** `getUniqueFileName` as a function. */
  function UniqueFileName(filename: string, existing: seq<string>): (r: string)
    ensures r !in existing
    ensures IsUniqueFileName(filename, existing, r)
  {
    if filename !in existing then filename
    else
      var p := SplitExtension(filename);
      var n := FirstFreeCounter(p.base, p.ext, existing, 1);
      Candidate(p.base, n, p.ext)
  }

  /** The description above admits exactly one result, so any implementation
      meeting it agrees with `UniqueFileName`. */
  lemma UniqueFileNameDetermined(filename: string, existing: seq<string>, r: string)
    requires IsUniqueFileName(filename, existing, r)
    ensures r == UniqueFileName(filename, existing)
  {
    if filename in existing {
      var p := SplitExtension(filename);
      var n :| 1 <= n && r == Candidate(p.base, n, p.ext) && r !in existing
               && forall k :: 1 <= k < n ==> Candidate(p.base, k, p.ext) in existing;
      var m := FirstFreeCounter(p.base, p.ext, existing, 1);
      LeastFreeCounterUnique(p.base, p.ext, existing, m, n);
    }
  }

  /** A taken name resolves to the candidate of the least counter whose
      candidate is free. */
  lemma UniqueFileNameIsLeastFree(filename: string, existing: seq<string>, n: nat)
    requires filename in existing && 1 <= n
    requires var p := SplitExtension(filename);
             Candidate(p.base, n, p.ext) !in existing
             && forall k :: 1 <= k < n ==> Candidate(p.base, k, p.ext) in existing
    ensures var p := SplitExtension(filename);
            UniqueFileName(filename, existing) == Candidate(p.base, n, p.ext)
  {
    var p := SplitExtension(filename);
    var m := FirstFreeCounter(p.base, p.ext, existing, 1);
    LeastFreeCounterUnique(p.base, p.ext, existing, m, n);
  }

  /** Resolving an already resolved name changes nothing. */
  lemma UniqueFileNameIdempotent(filename: string, existing: seq<string>)
    ensures UniqueFileName(UniqueFileName(filename, existing), existing)
            == UniqueFileName(filename, existing)
  {
  }

  /** A renamed file keeps its extension: the part from the last dot on is the
      same as the proposed name's, and a name without a dot stays without one. */
  lemma UniqueFileNameKeepsExtension(filename: string, existing: seq<string>)
    ensures SplitExtension(UniqueFileName(filename, existing)).ext == SplitExtension(filename).ext
    ensures '.' in UniqueFileName(filename, existing) <==> '.' in filename
  {
    if filename in existing {
      var p := SplitExtension(filename);
      var n := FirstFreeCounter(p.base, p.ext, existing, 1);
      var b := p.base + " (" + Decimal(n) + ")";
      assert UniqueFileName(filename, existing) == b + p.ext;
      if p.ext == "" {
        assert forall i :: 0 <= i < |Decimal(n)| ==> Decimal(n)[i] != '.';
        assert '.' !in b;
      }
      SplitExtensionOf(b, p.ext);
    }
  }

  /** The `while` loop of `getUniqueFileName`: try `base (1)ext`,
      `base (2)ext`, ... until one is not in `existing`. */
  method GetUniqueFileName(filename: string, existing: seq<string>) returns (r: string)
    ensures r == UniqueFileName(filename, existing)
    ensures r !in existing
  {
    if filename !in existing {
      return filename;
    }
    var p := SplitExtension(filename);
    var counter := 1;
    var newName := Candidate(p.base, counter, p.ext);
    while newName in existing
      invariant 1 <= counter
      invariant newName == Candidate(p.base, counter, p.ext)
      invariant forall k :: 1 <= k < counter ==> Candidate(p.base, k, p.ext) in existing
      decreases |existing| + 1 - counter
    {
      TakenCountersBound(p.base, p.ext, existing, counter);
      counter := counter + 1;
      newName := Candidate(p.base, counter, p.ext);
    }
    UniqueFileNameDetermined(filename, existing, newName);
    return newName;
  }

  // ---------------------------------------------------------------------------
  // Renaming a whole selection

  /** The `for` loop over `input.files` as a left fold: each file is resolved
      against the snapshot plus the names chosen for the files before it. */
  function RenameAll(names: seq<string>, existing: seq<string>): (out: seq<string>)
    ensures |out| == |names|
    ensures forall i :: 0 <= i < |out| ==> out[i] !in existing
    ensures Distinct(out)
    decreases |names|
  {
    if |names| == 0 then []
    else
      var u := UniqueFileName(names[0], existing);
      [u] + RenameAll(names[1..], existing + [u])
  }

  /** Renaming a selection in two parts is renaming the first part, then the
      second against everything taken so far. */
  lemma {:induction false} RenameAllAppend(a: seq<string>, b: seq<string>, existing: seq<string>)
    ensures RenameAll(a + b, existing)
            == RenameAll(a, existing) + RenameAll(b, existing + RenameAll(a, existing))
    decreases |a|
  {
    if |a| > 0 {
      var u := UniqueFileName(a[0], existing);
      assert (a + b)[0] == a[0];
      assert (a + b)[1..] == a[1..] + b;
      RenameAllAppend(a[1..], b, existing + [u]);
      assert existing + [u] + RenameAll(a[1..], existing + [u]) == existing + RenameAll(a, existing);
    } else {
      assert a + b == b;
      assert existing + [] == existing;
    }
  }

  /** Renaming one more file appends its resolution against everything taken
      so far. */
  lemma RenameAllSnoc(names: seq<string>, x: string, existing: seq<string>)
    ensures RenameAll(names + [x], existing)
            == RenameAll(names, existing) + [UniqueFileName(x, existing + RenameAll(names, existing))]
  {
    RenameAllAppend(names, [x], existing);
  }

  /** Each output name is the resolution of its input name against the
      snapshot followed by all earlier output names. */
  lemma RenameAllAt(names: seq<string>, existing: seq<string>, i: nat)
    requires i < |names|
    ensures var out := RenameAll(names, existing);
            out[i] == UniqueFileName(names[i], existing + out[..i])
  {
    var out := RenameAll(names, existing);
    assert names == names[..i] + names[i..];
    RenameAllAppend(names[..i], names[i..], existing);
    var front := RenameAll(names[..i], existing);
    assert out[..i] == front;
    assert names[i..][0] == names[i];
  }

  /** A file keeps its own name exactly when nobody holds it yet: neither the
      directory nor an earlier file of the selection. In particular the first
      file with a free name keeps it. */
  lemma RenameAllKeepsFreeNames(names: seq<string>, existing: seq<string>, i: nat)
    requires i < |names|
    ensures var out := RenameAll(names, existing);
            out[i] == names[i] <==> names[i] !in existing + out[..i]
  {
    RenameAllAt(names, existing, i);
  }

  /** Renaming never changes the number or the order of the files: output i
      belongs to input i and is computed from the inputs before it only. */
  lemma RenameAllPrefix(names: seq<string>, existing: seq<string>, i: nat)
    requires i <= |names|
    ensures RenameAll(names, existing)[..i] == RenameAll(names[..i], existing)
  {
    assert names == names[..i] + names[i..];
    RenameAllAppend(names[..i], names[i..], existing);
  }

  /** One step of the selection loop: the fold over the first i + 1 names
      extends the fold over the first i by the resolution of name i. */
  lemma RenameAllNext(names: seq<string>, i: nat, existing: seq<string>, u: string)
    requires i < |names|
    requires u == UniqueFileName(names[i], existing + RenameAll(names[..i], existing))
    ensures RenameAll(names[..i + 1], existing) == RenameAll(names[..i], existing) + [u]
  {
    RenameAllSnoc(names[..i], names[i], existing);
    assert names[..i + 1] == names[..i] + [names[i]];
  }

  /** The loop body of the selection handler: each picked file becomes a new
      `File` with the resolved name and the same type and contents, and the
      name joins `existingFiles`. */
  method RenameSelection(files: seq<LocalFile>, existing: seq<string>) returns (renamed: seq<LocalFile>)
    ensures |renamed| == |files|
    ensures Names(renamed) == RenameAll(Names(files), existing)
    ensures forall i :: 0 <= i < |files| ==>
              renamed[i].mimeType == files[i].mimeType && renamed[i].body == files[i].body
  {
    ghost var names := Names(files);
    ghost var chosen: seq<string> := [];
    var existingFiles := existing;
    renamed := [];
    for i := 0 to |files|
      invariant |renamed| == |chosen| == i
      invariant chosen == RenameAll(names[..i], existing)
      invariant existingFiles == existing + chosen
      invariant forall j :: 0 <= j < i ==>
                  renamed[j] == LocalFile(chosen[j], files[j].mimeType, files[j].body)
    {
      var uniqueName := GetUniqueFileName(files[i].name, existingFiles);
      RenameAllNext(names, i, existing, uniqueName);
      renamed := renamed + [LocalFile(uniqueName, files[i].mimeType, files[i].body)];
      chosen := chosen + [uniqueName];
      existingFiles := existingFiles + [uniqueName];
    }
    assert names[..|files|] == names;
    assert Names(renamed) == chosen;
  }

  /** The `onchange` handler of the file input. With no file list nothing
      happens, and a listing fetch that fails (`listing` is `None`) aborts the
      handler before anything is enqueued. Otherwise the files are renamed
      against the listing of `cwd`, enqueued for `cwd`, the drawer closes and
      the refresh callback runs, in that order. */
  method HandleFileSelection(cwd: string, selection: Option<seq<LocalFile>>, listing: Option<seq<string>>)
    returns (effects: seq<Effect>)
    ensures selection.None? || listing.None? ==> effects == []
    ensures selection.Some? && listing.Some? ==>
              |effects| == 3 && effects[0].Enqueue?
              && effects[1] == SetOpen(false) && effects[2] == OnUpload
    ensures selection.Some? && listing.Some? ==>
              var files := selection.value;
              var tasks := effects[0].tasks;
              |tasks| == |files|
              && (forall i :: 0 <= i < |tasks| ==>
                    tasks[i].basedir == cwd
                    && tasks[i].file.mimeType == files[i].mimeType
                    && tasks[i].file.body == files[i].body
                    && tasks[i].file.name !in ExistingFiles(listing.value))
              && (forall i, j :: 0 <= i < j < |tasks| ==> tasks[i].file.name != tasks[j].file.name)
    ensures selection.Some? && listing.Some? ==>
              var names := RenameAll(Names(selection.value), ExistingFiles(listing.value));
              forall i :: 0 <= i < |effects[0].tasks| ==> effects[0].tasks[i].file.name == names[i]
  {
    if selection.None? || listing.None? {
      return [];
    }
    var existingFiles := ExistingFiles(listing.value);
    var renamed := RenameSelection(selection.value, existingFiles);
    var tasks := seq(|renamed|, i requires 0 <= i < |renamed| => UploadTask(renamed[i], cwd));
    forall i | 0 <= i < |tasks|
      ensures tasks[i].file.name !in existingFiles
    {
      assert tasks[i].file.name == Names(renamed)[i];
    }
    forall i, j | 0 <= i < j < |tasks|
      ensures tasks[i].file.name != tasks[j].file.name
    {
      assert tasks[i].file.name == Names(renamed)[i];
      assert tasks[j].file.name == Names(renamed)[j];
    }
    effects := [Enqueue(tasks), SetOpen(false), OnUpload];
  }

  /** A taken name picked twice, when counters 1 and 2 give free names:
      the two files get counters 1 and 2. */
  lemma RepeatedTakenNameRenaming(name: string, existing: seq<string>)
    requires name in existing
    requires var p := SplitExtension(name);
             Candidate(p.base, 1, p.ext) !in existing && Candidate(p.base, 2, p.ext) !in existing
    ensures var p := SplitExtension(name);
            RenameAll([name, name], existing) == [Candidate(p.base, 1, p.ext), Candidate(p.base, 2, p.ext)]
  {
    var p := SplitExtension(name);
    var one := Candidate(p.base, 1, p.ext);
    var two := Candidate(p.base, 2, p.ext);
    CandidateInjective(p.base, p.ext, 1, 2);
    UniqueFileNameIsLeastFree(name, existing, 1);
    UniqueFileNameIsLeastFree(name, existing + [one], 2);
    assert [name, name][1..] == [name];
  }

  /** One name picked three times: the first file keeps it and the next two
      get counters 1 and 2, provided the directory holds none of the three
      (so "photo.jpg" three times into an empty directory gives photo.jpg,
      photo (1).jpg and photo (2).jpg). */
  lemma RepeatedNameRenaming(name: string, existing: seq<string>)
    requires name !in existing
    requires var p := SplitExtension(name);
             Candidate(p.base, 1, p.ext) !in existing && Candidate(p.base, 2, p.ext) !in existing
    ensures var p := SplitExtension(name);
            RenameAll([name, name, name], existing)
            == [name, Candidate(p.base, 1, p.ext), Candidate(p.base, 2, p.ext)]
  {
    var p := SplitExtension(name);
    assert |Candidate(p.base, 1, p.ext)| > |name| && |Candidate(p.base, 2, p.ext)| > |name|;
    RepeatedTakenNameRenaming(name, existing + [name]);
    assert [name, name, name][1..] == [name, name];
  }
}
