/** The analysis service: turning the clauses the language model returns into
    a change map, and the two requests that end in a redline (the first
    analysis, and a round of user feedback). The model calls themselves are
    outside this model: their parsed answers are parameters. */
module AiService {
  import opened DocModel
  import opened DocumentService

  /** One clause of the model's parsed answer. */
  datatype Clause = Clause(original: string, issue: string, suggestion: string)

  /** The validator's parsed answer. */
  datatype Validation = Validation(valid: bool, feedback: string, suggestedChanges: map<string, string>)

  /** Where the fields of an entry other than its suggestion come from: the
      validator's overall verdict (analysis), or the user's feedback text. */
  datatype EntrySource = FromValidation(validation: Validation) | FromFeedback(feedback: string)

  function EntryFor(c: Clause, source: EntrySource): Entry
  {
    match source
    case FromValidation(v) => Analysed(c.suggestion, v.valid, v.feedback)
    case FromFeedback(f) => Revised(c.suggestion, f)
  }

  function Originals(clauses: seq<Clause>): set<string>
  {
    set i | 0 <= i < |clauses| :: clauses[i].original
  }

  /** The change map after folding `clauses` in order into an initially
      empty map. Its keys are exactly the clauses' original texts. */
  function ChangesFrom(clauses: seq<Clause>, source: EntrySource): (m: ChangeMap)
    ensures m.Keys == Originals(clauses)
  {
    if |clauses| == 0 then map[]
    else
      var n := |clauses| - 1;
      assert Originals(clauses) == Originals(clauses[..n]) + {clauses[n].original} by {
        forall i | 0 <= i < n ensures clauses[..n][i] == clauses[i] { }
      }
      ChangesFrom(clauses[..n], source)[clauses[n].original := EntryFor(clauses[n], source)]
  }

  /** A clause that no later clause shares its original with decides that
      key's entry: when several clauses share an original, the last wins. */
  lemma {:induction false} LastClauseWins(clauses: seq<Clause>, source: EntrySource, i: nat)
    requires i < |clauses|
    requires forall j :: i < j < |clauses| ==> clauses[j].original != clauses[i].original
    ensures clauses[i].original in ChangesFrom(clauses, source)
    ensures ChangesFrom(clauses, source)[clauses[i].original] == EntryFor(clauses[i], source)
  {
    var n := |clauses| - 1;
    var prefix := clauses[..n];
    if i < n {
      assert prefix[i] == clauses[i];
      forall j | i < j < n ensures prefix[j].original != prefix[i].original {
        assert prefix[j] == clauses[j];
      }
      LastClauseWins(prefix, source, i);
      assert clauses[n].original != clauses[i].original;
    }
  }

  /** Every entry was produced by the last clause carrying its key. */
  lemma EntryFromLastClause(clauses: seq<Clause>, source: EntrySource, k: string)
    requires k in ChangesFrom(clauses, source)
    ensures exists i :: (0 <= i < |clauses| && clauses[i].original == k
      && (forall j :: i < j < |clauses| ==> clauses[j].original != k)
      && ChangesFrom(clauses, source)[k] == EntryFor(clauses[i], source))
  {
    var i := LastClauseFor(clauses, source, k);
  }

  /** The index of the clause that produced the entry for `k`. */
  lemma {:induction false} LastClauseFor(clauses: seq<Clause>, source: EntrySource, k: string) returns (i: nat)
    requires k in ChangesFrom(clauses, source)
    ensures i < |clauses| && clauses[i].original == k
    ensures forall j :: i < j < |clauses| ==> clauses[j].original != k
    ensures ChangesFrom(clauses, source)[k] == EntryFor(clauses[i], source)
  {
    var n := |clauses| - 1;
    if clauses[n].original == k {
      i := n;
    } else {
      var prefix := clauses[..n];
      assert ChangesFrom(clauses, source)[k] == ChangesFrom(prefix, source)[k];
      i := LastClauseFor(prefix, source, k);
      assert clauses[i] == prefix[i];
      forall j | i < j < |clauses| ensures clauses[j].original != k {
        if j < n {
          assert clauses[j] == prefix[j];
        }
      }
    }
  }

  /** In the analysis map every entry carries the validator's overall
      verdict and feedback, whatever the clause, and its suggestion comes
      from the clause that produced it. */
  lemma AnalysisEntriesUniform(clauses: seq<Clause>, validation: Validation)
    ensures var m := ChangesFrom(clauses, FromValidation(validation));
      forall k :: k in m ==> (m[k].Analysed? && m[k].validated == validation.valid
        && m[k].feedback == validation.feedback
        && exists i :: 0 <= i < |clauses| && clauses[i].original == k && m[k].suggestion == clauses[i].suggestion)
  {
    var m := ChangesFrom(clauses, FromValidation(validation));
    forall k | k in m
      ensures m[k].Analysed? && m[k].validated == validation.valid && m[k].feedback == validation.feedback
      ensures exists i :: 0 <= i < |clauses| && clauses[i].original == k && m[k].suggestion == clauses[i].suggestion
    {
      EntryFromLastClause(clauses, FromValidation(validation), k);
    }
  }

  /** The validator's per-clause `suggestedChanges` are never consulted. */
  lemma {:induction false} AnalysisIgnoresSuggestedChanges(clauses: seq<Clause>, validation: Validation, other: map<string, string>)
    ensures ChangesFrom(clauses, FromValidation(validation))
         == ChangesFrom(clauses, FromValidation(validation.(suggestedChanges := other)))
  {
    if |clauses| > 0 {
      AnalysisIgnoresSuggestedChanges(clauses[..|clauses| - 1], validation, other);
    }
  }

  /** In the feedback map every entry has the user's feedback text and no
      validation verdict, and its suggestion comes from the clause that
      produced it. */
  lemma FeedbackEntries(clauses: seq<Clause>, feedback: string)
    ensures var m := ChangesFrom(clauses, FromFeedback(feedback));
      forall k :: k in m ==> (m[k].Revised? && m[k].feedback == feedback
        && exists i :: 0 <= i < |clauses| && clauses[i].original == k && m[k].suggestion == clauses[i].suggestion)
  {
    var m := ChangesFrom(clauses, FromFeedback(feedback));
    forall k | k in m
      ensures m[k].Revised? && m[k].feedback == feedback
      ensures exists i :: 0 <= i < |clauses| && clauses[i].original == k && m[k].suggestion == clauses[i].suggestion
    {
      EntryFromLastClause(clauses, FromFeedback(feedback), k);
    }
  }

  /** The loop of `analyze_document` that builds the change map. */
  method BuildAnalysisChanges(clauses: seq<Clause>, validation: Validation) returns (changes: ChangeMap)
    ensures changes == ChangesFrom(clauses, FromValidation(validation))
    ensures changes.Keys == Originals(clauses)
  {
    changes := map[];
    for i := 0 to |clauses|
      invariant changes == ChangesFrom(clauses[..i], FromValidation(validation))
    {
      var clause := clauses[i];
      changes := changes[clause.original := Analysed(clause.suggestion, validation.valid, validation.feedback)];
      assert clauses[..i + 1][..i] == clauses[..i];
    }
    assert clauses[..|clauses|] == clauses;
  }

  /** The loop of `process_feedback` that builds the change map. */
  method BuildFeedbackChanges(clauses: seq<Clause>, feedback: string) returns (changes: ChangeMap)
    ensures changes == ChangesFrom(clauses, FromFeedback(feedback))
    ensures changes.Keys == Originals(clauses)
  {
    changes := map[];
    for i := 0 to |clauses|
      invariant changes == ChangesFrom(clauses[..i], FromFeedback(feedback))
    {
      var clause := clauses[i];
      changes := changes[clause.original := Revised(clause.suggestion, feedback)];
      assert clauses[..i + 1][..i] == clauses[..i];
    }
    assert clauses[..|clauses|] == clauses;
  }

  // ---------------------------------------------------------------------
  // The two requests
  // ---------------------------------------------------------------------

  const AnalysisSuffix: string := "_analysis.json"

  predicate EndsWithAnalysisSuffix(p: string)
  {
    |p| >= |AnalysisSuffix| && p[|p| - |AnalysisSuffix|..] == AnalysisSuffix
  }

  /** The previous analysis that `process_feedback` reads:
      `uploads/{id}_analysis.json` (for a relative id). */
  function AnalysisPath(id: string): (p: string)
    ensures EndsWithAnalysisSuffix(p)
    ensures !Absolute(id) ==> IsUnder(p, UploadDir)
  {
    var name := id + AnalysisSuffix;
    assert name[|name| - |AnalysisSuffix|..] == AnalysisSuffix;
    PathJoin(UploadDir, name)
  }

  /** No JSON file on disk is a saved analysis. */
  predicate NoSavedAnalysis(json: set<string>)
  {
    forall p :: p in json ==> !EndsWithAnalysisSuffix(p)
  }

  /** The metadata file written by an upload is never taken for a saved
      analysis, so uploads keep a disk free of saved analyses. */
  lemma UploadSavesNoAnalysis(json: set<string>, id: string)
    requires NoSavedAnalysis(json)
    ensures NoSavedAnalysis(json + {MetadataPath(id)})
  {
    var p := MetadataPath(id);
    var name := id + "_metadata.json";
    assert p[|p| - |name|..] == name;
    assert p[|p| - 14..] == name[|name| - 14..];
    assert name[|name| - 14..] == "_metadata.json";
  }

  datatype AnalysisReport = AnalysisReport(documentId: string, analysis: seq<Clause>, validation: Validation)

  datatype FeedbackReport = FeedbackReport(documentId: string, newAnalysis: seq<Clause>)

  /** `analyze_document`. `promptText` is the text handed to the primary
      model; `clauses` and `validation` are the parsed answers of the two
      models. */
  method AnalyzeDocument(disk: Disk, id: string, clauses: seq<Clause>, validation: Validation)
    returns (r: Result<AnalysisReport>, promptText: string)
    modifies disk
    ensures disk.json == old(disk.json)
    ensures UploadPath(id) !in old(disk.docs) ==>
      r == Failure(MissingFile(UploadPath(id))) && disk.docs == old(disk.docs)
    ensures UploadPath(id) in old(disk.docs) ==>
      && r == Success(AnalysisReport(id, clauses, validation))
      && promptText == DocumentText(old(disk.docs)[UploadPath(id)])
      && disk.docs == RedlineFiles(old(disk.docs), id, ChangesFrom(clauses, FromValidation(validation)))
  {
    var docPath := UploadPath(id);
    if docPath !in disk.docs {
      return Failure(MissingFile(docPath)), "";
    }
    promptText := DocumentText(disk.docs[docPath]);
    var changes := BuildAnalysisChanges(clauses, validation);
    var _ := CreateRedlineDocument(disk, id, changes);
    r := Success(AnalysisReport(id, clauses, validation));
  }

  /** `process_feedback`. `clauses` is the parsed answer of the model to the
      previous analysis and the user's `feedback`. */
  method ProcessFeedback(disk: Disk, id: string, feedback: string, clauses: seq<Clause>)
    returns (r: Result<FeedbackReport>)
    modifies disk
    ensures disk.json == old(disk.json)
    ensures AnalysisPath(id) !in old(disk.json) ==>
      r == Failure(MissingFile(AnalysisPath(id))) && disk.docs == old(disk.docs)
    ensures AnalysisPath(id) in old(disk.json) ==>
      && disk.docs == RedlineFiles(old(disk.docs), id, ChangesFrom(clauses, FromFeedback(feedback)))
      && r == if UploadPath(id) in old(disk.docs) then Success(FeedbackReport(id, clauses))
              else Failure(MissingFile(UploadPath(id)))
    ensures NoSavedAnalysis(old(disk.json)) ==> r.Failure?
  {
    var analysisPath := AnalysisPath(id);
    if analysisPath !in disk.json {
      return Failure(MissingFile(analysisPath));
    }
    var changes := BuildFeedbackChanges(clauses, feedback);
    var written := CreateRedlineDocument(disk, id, changes);
    if written.Failure? {
      return Failure(written.error);
    }
    r := Success(FeedbackReport(id, clauses));
  }
}
