/**
 * The request-processing branch of `main`, over a session that holds what
 * the request reads and changes: the generation history, the last generated
 * program, the working directory's entries and the temporary script files
 * left behind in the scratch location.
 *
 * One request: generate the program, screen it, run it, find the newest
 * `.pdf`, record the attempt, and prune all but the three newest `.pdf`
 * files. The text-generation call, the child's outcome, the directory as the
 * child leaves it and the files whose deletion fails are inputs.
 */
module Pipeline {
  import opened Wrappers
  import opened Text
  import opened Synthesizer
  import opened Screener
  import opened Executor
  import opened Listing
  import opened History

  /** How many of the newest `.pdf` files survive a successful request. */
  const KeepPdfs: nat := 3

  /** What one request ends in. */
  datatype Report =
    | NoPrompt                                    // the button was pressed with an empty description
    | CodeGenerationFailed                        // the service raised, or the cleaned program is empty
    | CreationFailed(warnings: seq<string>, error: string)
    | NoPdfProduced(warnings: seq<string>)
    | Produced(warnings: seq<string>, file: Entry, pdfFiles: seq<Entry>, deletionsAttempted: seq<string>)

  /** Python's `s[k:]` for `k >= 0`. */
  function Drop<T>(s: seq<T>, k: nat): (r: seq<T>)
    ensures |r| == if |s| <= k then 0 else |s| - k
    ensures forall i :: 0 <= i < |r| ==> r[i] == s[k + i]
  {
    if |s| <= k then [] else s[k..]
  }

  /** The entries of `dir` whose name is not in `gone`, in listing order. */
  function Without(dir: seq<Entry>, gone: set<string>): seq<Entry> {
    if dir == [] then []
    else (if dir[0].name in gone then [] else [dir[0]]) + Without(dir[1..], gone)
  }

  /** The names whose deletion goes through. */
  function Deleted(attempted: seq<string>, undeletable: set<string>): set<string> {
    set n | n in attempted && n !in undeletable
  }

  /** Removing files keeps exactly the entries whose name was not removed. */
  lemma {:induction false} WithoutMembers(dir: seq<Entry>, gone: set<string>)
    ensures forall x :: x in Without(dir, gone) <==> x in dir && x.name !in gone
    decreases |dir|
  {
    if dir != [] {
      WithoutMembers(dir[1..], gone);
      assert dir == [dir[0]] + dir[1..];
    }
  }

  /** Removing one more name after a set of names is removing their union. */
  lemma {:induction false} WithoutTwice(dir: seq<Entry>, gone: set<string>, name: string)
    ensures Without(Without(dir, gone), {name}) == Without(dir, gone + {name})
    decreases |dir|
  {
    if dir != [] {
      WithoutTwice(dir[1..], gone, name);
      var head := if dir[0].name in gone then [] else [dir[0]];
      var rest := Without(dir[1..], gone);
      assert Without(dir, gone) == head + rest;
      if head == [] {
        assert Without(dir, gone) == rest;
      } else {
        assert (head + rest)[0] == dir[0] && (head + rest)[1..] == rest;
      }
    }
  }

  lemma {:induction false} WithoutDistinct(dir: seq<Entry>, gone: set<string>)
    requires DistinctNames(dir)
    ensures DistinctNames(Without(dir, gone))
    decreases |dir|
  {
    if dir != [] {
      WithoutDistinct(dir[1..], gone);
      WithoutMembers(dir[1..], gone);
      var rest := Without(dir[1..], gone);
      if dir[0].name !in gone {
        var r := [dir[0]] + rest;
        forall i, j | 0 <= i < j < |r| ensures r[i].name != r[j].name {
          assert r[j] == rest[j - 1] && r[j] in dir[1..];
          if i > 0 {
            assert r[i] == rest[i - 1];
          }
        }
      }
    }
  }

  /** With distinct names, none of the three newest is among the names the
      clean-up attempts. */
  lemma KeptNotAttempted(pdfs: seq<Entry>, i: nat)
    requires DistinctNames(pdfs) && i < KeepPdfs && i < |pdfs|
    ensures pdfs[i].name !in Names(Drop(pdfs, KeepPdfs))
  {
    var attempted := Names(Drop(pdfs, KeepPdfs));
    forall j | 0 <= j < |attempted| ensures attempted[j] != pdfs[i].name {
      assert attempted[j] == pdfs[KeepPdfs + j].name;
    }
  }

  /** Every entry from index three on is among the names attempted. */
  lemma DroppedAttempted(pdfs: seq<Entry>, k: nat)
    requires KeepPdfs <= k < |pdfs|
    ensures pdfs[k].name in Names(Drop(pdfs, KeepPdfs))
  {
    assert Names(Drop(pdfs, KeepPdfs))[k - KeepPdfs] == pdfs[k].name;
  }

  /** Retention, first half: pruning never removes one of the three newest
      entries of a listing with distinct names. */
  lemma RetentionKeepsNewest(dir: seq<Entry>, pdfs: seq<Entry>, undeletable: set<string>)
    requires DistinctNames(dir) && DistinctNames(pdfs)
    requires multiset(pdfs) == multiset(PdfEntries(dir))
    ensures forall i :: 0 <= i < KeepPdfs && i < |pdfs| ==>
              pdfs[i] in Without(dir, Deleted(Names(Drop(pdfs, KeepPdfs)), undeletable))
  {
    var gone := Deleted(Names(Drop(pdfs, KeepPdfs)), undeletable);
    WithoutMembers(dir, gone);
    PdfEntriesMembers(dir);
    forall i | 0 <= i < KeepPdfs && i < |pdfs|
      ensures pdfs[i] in Without(dir, gone)
    {
      assert pdfs[i] in multiset(pdfs);
      KeptNotAttempted(pdfs, i);
    }
  }

  /** Retention, second half: every `.pdf` file left after pruning is one of
      the three newest or one whose deletion failed. */
  lemma RetentionRemovesRest(dir: seq<Entry>, pdfs: seq<Entry>, undeletable: set<string>)
    requires multiset(pdfs) == multiset(PdfEntries(dir))
    ensures forall x :: x in Without(dir, Deleted(Names(Drop(pdfs, KeepPdfs)), undeletable)) && IsPdf(x.name) ==>
              x in pdfs[..Min(KeepPdfs, |pdfs|)] || x.name in undeletable
  {
    var gone := Deleted(Names(Drop(pdfs, KeepPdfs)), undeletable);
    WithoutMembers(dir, gone);
    PdfEntriesMembers(dir);
    forall x | x in Without(dir, gone) && IsPdf(x.name)
      ensures x in pdfs[..Min(KeepPdfs, |pdfs|)] || x.name in undeletable
    {
      assert x in multiset(PdfEntries(dir));
      assert x in multiset(pdfs);
      var k :| 0 <= k < |pdfs| && pdfs[k] == x;
      if k < KeepPdfs {
        assert pdfs[..Min(KeepPdfs, |pdfs|)][k] == x;
      } else {
        DroppedAttempted(pdfs, k);
      }
    }
  }

  class Session {
    /** `st.session_state.history`, absent until the first save. */
    var history: Option<seq<HistoryEntry>>
    /** `st.session_state.generated_code`. */
    var generatedCode: Option<string>
    /** The working directory's entries, in listing order. */
    var directory: seq<Entry>
    /** Temporary script files the app did not remove. */
    var strayTempFiles: nat

    /** The history, a missing one read as empty. */
    function HistoryOrEmpty(): seq<HistoryEntry>
      reads this
    {
      history.GetOr([])
    }

    ghost predicate Valid()
      reads this
    {
      |HistoryOrEmpty()| <= HistoryCap && DistinctNames(directory)
    }

    /** A fresh session over a directory listing. */
    constructor (listing: seq<Entry>)
      requires DistinctNames(listing)
      ensures Valid()
      ensures history == None && generatedCode == None
      ensures directory == listing && strayTempFiles == 0
    {
      history := None;
      generatedCode := None;
      directory := listing;
      strayTempFiles := 0;
    }

    /** `save_to_history`: create the history if missing, insert at the
        head, keep the first ten. */
    method SaveToHistory(entry: HistoryEntry)
      requires Valid()
      modifies this
      ensures Valid()
      ensures history == Some(Pushed(old(HistoryOrEmpty()), entry))
      ensures |HistoryOrEmpty()| == Min(|old(HistoryOrEmpty())| + 1, HistoryCap) && HistoryOrEmpty()[0] == entry
      ensures generatedCode == old(generatedCode) && directory == old(directory)
      ensures strayTempFiles == old(strayTempFiles)
    {
      if history.None? {
        history := Some([]);
      }
      var h := [entry] + history.value;
      history := Some(h[..Min(|h|, HistoryCap)]);
    }

    /** The clean-up loop: attempt to delete every file of `pdfFiles` from
        index three on, one at a time; a deletion that fails (its name is in
        `undeletable`) is swallowed and the loop goes on. */
    method PruneOldPdfs(pdfFiles: seq<Entry>, undeletable: set<string>) returns (attempted: seq<string>)
      requires Valid()
      modifies this
      ensures Valid()
      ensures attempted == Names(Drop(pdfFiles, KeepPdfs))
      ensures directory == Without(old(directory), Deleted(attempted, undeletable))
      ensures history == old(history) && generatedCode == old(generatedCode)
      ensures strayTempFiles == old(strayTempFiles)
    {
      ghost var start := directory;
      var rest := Drop(pdfFiles, KeepPdfs);
      attempted := [];
      assert Deleted(attempted, undeletable) == {};
      WithoutNothing(start);
      for k := 0 to |rest|
        invariant attempted == Names(rest[..k])
        invariant directory == Without(start, Deleted(attempted, undeletable))
        invariant DistinctNames(directory)
        invariant history == old(history) && generatedCode == old(generatedCode)
        invariant strayTempFiles == old(strayTempFiles)
      {
        var name := rest[k].name;
        NamesPrefix(rest, k);
        ghost var before := Deleted(attempted, undeletable);
        DeletedStep(attempted, name, undeletable);
        if name !in undeletable {
          PruneStep(start, before, name, directory);
          directory := Without(directory, {name});
          assert Deleted(attempted + [name], undeletable) == before + {name};
        } else {
          assert Deleted(attempted + [name], undeletable) == before;
        }
        attempted := attempted + [name];
      }
      assert rest[..|rest|] == rest;
    }

    /** After a successful run: list the `.pdf` files newest first, record
        the attempt, and prune all but the three newest. */
    method ReportFiles(prompt: string, code: string, warnings: seq<string>,
                       undeletable: set<string>, now: int) returns (report: Report)
      requires Valid()
      modifies this
      ensures Valid()
      ensures generatedCode == old(generatedCode) && strayTempFiles == old(strayTempFiles)
      ensures PdfEntries(old(directory)) == [] ==>
        && report == NoPdfProduced(warnings)
        && history == Some(Pushed(old(HistoryOrEmpty()), HistoryEntry(now, prompt, code, false, None)))
        && directory == old(directory)
      ensures PdfEntries(old(directory)) != [] ==>
        && ProducedFrom(report, warnings, old(directory), undeletable, directory)
        && history == Some(Pushed(old(HistoryOrEmpty()), HistoryEntry(now, prompt, code, true, Some(report.file.name))))
    {
      var pdfFiles := FindPdfFiles(directory);
      if pdfFiles == [] {
        assert multiset(PdfEntries(directory)) == multiset{};
        SaveToHistory(HistoryEntry(now, prompt, code, false, None));
        return NoPdfProduced(warnings);
      }
      assert PdfEntries(directory) != [];
      var pdfFile := pdfFiles[0];
      SaveToHistory(HistoryEntry(now, prompt, code, true, Some(pdfFile.name)));
      ghost var ran := directory;
      RetentionKeepsNewest(ran, pdfFiles, undeletable);
      var attempted := PruneOldPdfs(pdfFiles, undeletable);
      report := Produced(warnings, pdfFile, pdfFiles, attempted);
    }

    /** Run the screened program, then report and record the outcome. */
    method RunAndRecord(prompt: string, code: string, warnings: seq<string>, outcome: ChildOutcome,
                        afterRun: seq<Entry>, undeletable: set<string>, now: int)
      returns (report: Report)
      requires Valid() && DistinctNames(afterRun)
      modifies this
      ensures Valid()
      ensures generatedCode == old(generatedCode)
      ensures var exec := CreatePdfFromCode(outcome);
        && strayTempFiles == old(strayTempFiles) + (if exec.tempRemoved then 0 else 1)
        && Recorded(report, prompt, code, warnings, exec, afterRun, undeletable, old(HistoryOrEmpty()), now, history, directory)
    {
      var exec := CreatePdfFromCode(outcome);
      if !exec.tempRemoved {
        strayTempFiles := strayTempFiles + 1;
      }
      directory := afterRun;
      if exec.result.None? {
        SaveToHistory(HistoryEntry(now, prompt, code, false, None));
        return CreationFailed(warnings, exec.error.value);
      }
      report := ReportFiles(prompt, code, warnings, undeletable, now);
    }

    /** The processing branch of `main`, run when the generate button is
        pressed. */
    method ProcessRequest(prompt: string, stylePreference: string, includeExamples: bool,
                          generate: PromptVars -> Option<string>, outcome: ChildOutcome,
                          afterRun: seq<Entry>, undeletable: set<string>, now: int)
      returns (report: Report)
      requires Valid() && DistinctNames(afterRun)
      modifies this
      ensures Valid()
      // An empty description gives a warning, and a failed or empty generation
      // an error; in both cases nothing runs and nothing is recorded.
      // Otherwise the program is kept, screened and run exactly once, and
      // exactly one attempt is recorded.
      ensures var code := GeneratePdfCode(prompt, stylePreference, includeExamples, generate);
        var exec := CreatePdfFromCode(outcome);
        if prompt == [] || code.None? || code.value == [] then
          && report == (if prompt == [] then NoPrompt else CodeGenerationFailed)
          && history == old(history) && generatedCode == old(generatedCode)
          && directory == old(directory) && strayTempFiles == old(strayTempFiles)
        else
          && generatedCode == code
          && strayTempFiles == old(strayTempFiles) + (if exec.tempRemoved then 0 else 1)
          && Recorded(report, prompt, code.value, Matches(DangerousPatterns, code.value), exec, afterRun,
                      undeletable, old(HistoryOrEmpty()), now, history, directory)
    {
      if prompt == [] {
        return NoPrompt;
      }
      var code := GeneratePdfCode(prompt, stylePreference, includeExamples, generate);
      if code.None? || code.value == [] {
        return CodeGenerationFailed;
      }
      var warnings := ValidateCodeSafety(code.value);
      generatedCode := code;
      report := RunAndRecord(prompt, code.value, warnings, outcome, afterRun, undeletable, now);
    }
  }

  /** A request that produced a file: the listing is the `.pdf` entries of
      the directory the child left, newest first, ties in listing order; the
      reported file is the first of them; deletion was attempted for every
      entry from index three on; `left` is the directory after the successful
      deletions, and it still holds the three newest entries. */
  ghost predicate ProducedFrom(report: Report, warnings: seq<string>, ran: seq<Entry>,
                               undeletable: set<string>, left: seq<Entry>)
  {
    && report.Produced?
    && report.warnings == warnings
    && NewestFirst(report.pdfFiles)
    && multiset(report.pdfFiles) == multiset(PdfEntries(ran))
    && (forall m :: WithMtime(report.pdfFiles, m) == WithMtime(PdfEntries(ran), m))
    && report.pdfFiles != [] && report.file == report.pdfFiles[0]
    && report.deletionsAttempted == Names(Drop(report.pdfFiles, KeepPdfs))
    && left == Without(ran, Deleted(report.deletionsAttempted, undeletable))
    && (forall i :: 0 <= i < KeepPdfs && i < |report.pdfFiles| ==> report.pdfFiles[i] in left)
  }

  /** What a run of the generated program leaves behind, by outcome: a failed
      run reports the error and records a failed attempt; a run that left no
      `.pdf` file records a failed attempt; otherwise the newest file is
      reported, recorded as a success, and the rest pruned. */
  ghost predicate Recorded(report: Report, prompt: string, code: string, warnings: seq<string>,
                           exec: Execution, ran: seq<Entry>, undeletable: set<string>,
                           before: seq<HistoryEntry>, now: int,
                           history: Option<seq<HistoryEntry>>, directory: seq<Entry>)
  {
    && (exec.result.None? ==>
          && exec.error.Some?
          && report == CreationFailed(warnings, exec.error.value)
          && history == Some(Pushed(before, HistoryEntry(now, prompt, code, false, None)))
          && directory == ran)
    && (exec.result.Some? && PdfEntries(ran) == [] ==>
          && report == NoPdfProduced(warnings)
          && history == Some(Pushed(before, HistoryEntry(now, prompt, code, false, None)))
          && directory == ran)
    && (exec.result.Some? && PdfEntries(ran) != [] ==>
          && ProducedFrom(report, warnings, ran, undeletable, directory)
          && history == Some(Pushed(before, HistoryEntry(now, prompt, code, true, Some(report.file.name)))))
  }

  lemma {:induction false} WithoutNothing(dir: seq<Entry>)
    ensures Without(dir, {}) == dir
    decreases |dir|
  {
    if dir != [] {
      WithoutNothing(dir[1..]);
      assert dir == [dir[0]] + dir[1..];
    }
  }

  lemma NamesPrefix(s: seq<Entry>, k: nat)
    requires k < |s|
    ensures Names(s[..k + 1]) == Names(s[..k]) + [s[k].name]
  {
    assert s[..k + 1][..k] == s[..k];
  }

  /** One more attempt adds its name to the deleted ones unless it fails. */
  lemma DeletedStep(attempted: seq<string>, name: string, undeletable: set<string>)
    ensures Deleted(attempted + [name], undeletable)
            == Deleted(attempted, undeletable) + (if name in undeletable then {} else {name})
  {
  }

  /** One successful deletion keeps the directory in step with the names
      deleted so far, and keeps its names distinct. */
  lemma PruneStep(start: seq<Entry>, gone: set<string>, name: string, dir: seq<Entry>)
    requires dir == Without(start, gone) && DistinctNames(dir)
    ensures Without(dir, {name}) == Without(start, gone + {name})
    ensures DistinctNames(Without(dir, {name}))
  {
    WithoutTwice(start, gone, name);
    WithoutDistinct(dir, {name});
  }
}
