/** The document service: where each artifact of an uploaded document lives,
    the download lookup, the redline and clean transforms (in place, over the
    paragraphs of an opened document) and the service operations that read
    and write artifacts on the disk. */
module DocumentService {
  import opened DocModel

  // ---------------------------------------------------------------------
  // Paths
  // ---------------------------------------------------------------------

  const UploadDir: string := "uploads"
  const ProcessedDir: string := "processed"

  /** True when `name` is an absolute path, which makes `os.path.join`
      drop every component before it. */
  predicate Absolute(name: string)
  {
    |name| > 0 && name[0] == '/'
  }

  /** What `os.path.join(dir, name)` puts in front of `name`: nothing when
      `name` is absolute, otherwise `dir` and a separator. */
  function JoinPrefix(dir: string, name: string): string
  {
    if Absolute(name) then "" else dir + "/"
  }

  /** `os.path.join(dir, name)` for a directory without a trailing
      separator. */
  function PathJoin(dir: string, name: string): (p: string)
    ensures |p| >= |name| && p[|p| - |name|..] == name
  {
    JoinPrefix(dir, name) + name
  }

  /** Where an upload is stored: `uploads/{id}.docx`. */
  function UploadPath(id: string): (p: string)
    ensures |p| == (if Absolute(id) then 0 else |UploadDir| + 1) + |id| + 5
    ensures !Absolute(id) ==> IsUnder(p, UploadDir)
  {
    PathJoin(UploadDir, id + ".docx")
  }

  /** Where an upload's metadata is stored: `uploads/{id}_metadata.json`. */
  function MetadataPath(id: string): (p: string)
    ensures |p| == (if Absolute(id) then 0 else |UploadDir| + 1) + |id| + 14
    ensures !Absolute(id) ==> IsUnder(p, UploadDir)
  {
    PathJoin(UploadDir, id + "_metadata.json")
  }

  /** Where the redline is written: `processed/{id}_redline.docx`. */
  function RedlinePath(id: string): (p: string)
    ensures |p| == (if Absolute(id) then 0 else |ProcessedDir| + 1) + |id| + 13
    ensures !Absolute(id) ==> IsUnder(p, ProcessedDir)
  {
    PathJoin(ProcessedDir, id + "_redline.docx")
  }

  /** Where the clean copy is written: `processed/{id}_clean.docx`. */
  function CleanPath(id: string): (p: string)
    ensures |p| == (if Absolute(id) then 0 else |ProcessedDir| + 1) + |id| + 11
    ensures !Absolute(id) ==> IsUnder(p, ProcessedDir)
  {
    PathJoin(ProcessedDir, id + "_clean.docx")
  }

  /** The path `get_document` checks for: `{id}.docx` under the processed
      directory when `clean` is set, under the upload directory otherwise. */
  function DownloadPath(id: string, clean: bool): (p: string)
    ensures |p| == (if Absolute(id) then 0 else |if clean then ProcessedDir else UploadDir| + 1) + |id| + 5
    ensures !Absolute(id) ==> IsUnder(p, if clean then ProcessedDir else UploadDir)
  {
    PathJoin(if clean then ProcessedDir else UploadDir, id + ".docx")
  }

  /** For a relative identifier each path is the directory, a separator and
      the identifier with the artifact's suffix. */
  lemma RelativePaths(id: string)
    requires !Absolute(id)
    ensures UploadPath(id) == "uploads/" + id + ".docx"
    ensures MetadataPath(id) == "uploads/" + id + "_metadata.json"
    ensures RedlinePath(id) == "processed/" + id + "_redline.docx"
    ensures CleanPath(id) == "processed/" + id + "_clean.docx"
    ensures DownloadPath(id, true) == "processed/" + id + ".docx"
    ensures DownloadPath(id, false) == "uploads/" + id + ".docx"
  {
    assert UploadDir + "/" == "uploads/";
    assert ProcessedDir + "/" == "processed/";
    RelativeJoin(UploadDir, id, ".docx");
    RelativeJoin(UploadDir, id, "_metadata.json");
    RelativeJoin(ProcessedDir, id, "_redline.docx");
    RelativeJoin(ProcessedDir, id, "_clean.docx");
    RelativeJoin(ProcessedDir, id, ".docx");
  }

  lemma RelativeJoin(dir: string, id: string, suffix: string)
    requires !Absolute(id) && |suffix| > 0 && suffix[0] != '/'
    ensures PathJoin(dir, id + suffix) == dir + "/" + id + suffix
  {
    assert (dir + "/") + (id + suffix) == dir + "/" + id + suffix;
  }

  /** The identifiers the service issues are `str(uuid4())`: lower-case hex
      digits and hyphens only. */
  predicate IssuedId(id: string)
  {
    forall k :: 0 <= k < |id| ==> id[k] in "0123456789abcdef-"
  }

  predicate NoUnderscore(s: string)
  {
    forall k :: 0 <= k < |s| ==> s[k] != '_'
  }

  /** True when path `p` names an entry of directory `dir`. */
  predicate IsUnder(p: string, dir: string)
  {
    |p| > |dir| && p[..|dir| + 1] == dir + "/"
  }

  /** The file of an uploaded original, its redline and its clean copy are
      three different files, and neither download variant is given the path
      of the redline or the clean copy of the same document. */
  lemma ArtifactPathsDistinct(id: string)
    ensures UploadPath(id) != RedlinePath(id)
    ensures UploadPath(id) != CleanPath(id)
    ensures RedlinePath(id) != CleanPath(id)
    ensures forall clean :: DownloadPath(id, clean) != RedlinePath(id)
    ensures forall clean :: DownloadPath(id, clean) != CleanPath(id)
  {
    var u, r, c := UploadPath(id), RedlinePath(id), CleanPath(id);
    assert |u| != |r| && |u| != |c| && |r| != |c|;
    forall clean ensures |DownloadPath(id, clean)| != |r| && |DownloadPath(id, clean)| != |c| { }
  }

  /** A name `q.docx` with no underscore in `q` is never `r` followed by a
      longer suffix that starts with an underscore, such as `_redline.docx`. */
  lemma SuffixedNamesDiffer(q: string, r: string, suffix: string)
    requires NoUnderscore(q)
    requires |suffix| > 5 && suffix[0] == '_'
    ensures q + ".docx" != r + suffix
  {
    var s, t := q + ".docx", r + suffix;
    if |s| == |t| {
      assert s[|r|] == q[|r|];
      assert t[|r|] == '_';
    }
  }

  lemma NoUnderscoreConcat(a: string, b: string)
    requires NoUnderscore(a) && NoUnderscore(b)
    ensures NoUnderscore(a + b)
  {
    forall k | 0 <= k < |a + b| ensures (a + b)[k] != '_' {
      if k >= |a| {
        assert (a + b)[k] == b[k - |a|];
      }
    }
  }

  lemma IssuedIdHasNoUnderscore(id: string)
    requires IssuedId(id)
    ensures NoUnderscore(id)
    ensures !Absolute(id)
  {
    forall k | 0 <= k < |id| ensures id[k] != '_' && id[k] != '/' {
      assert id[k] in "0123456789abcdef-";
    }
  }

  /** `get_document` looks in the processed directory exactly when `clean`
      is set, and in the upload directory otherwise, at `{id}.docx`. */
  lemma DownloadDirectory(id: string, clean: bool)
    requires IssuedId(id)
    ensures IsUnder(DownloadPath(id, clean), ProcessedDir) <==> clean
    ensures IsUnder(DownloadPath(id, clean), UploadDir) <==> !clean
    ensures DownloadPath(id, clean)[|DownloadPath(id, clean)| - |id| - 5..] == id + ".docx"
  {
    IssuedIdHasNoUnderscore(id);
    var dir, other := if clean then ProcessedDir else UploadDir, if clean then UploadDir else ProcessedDir;
    var p := DownloadPath(id, clean);
    RelativeJoin(dir, id, ".docx");
    assert p[0] == dir[0] != other[0];
  }

  /** The download path is `stem.docx` with no underscore in its stem. */
  lemma DownloadStem(id: string, clean: bool) returns (stem: string)
    requires NoUnderscore(id)
    ensures DownloadPath(id, clean) == stem + ".docx" && NoUnderscore(stem)
  {
    var dir := if clean then ProcessedDir else UploadDir;
    var name := id + ".docx";
    var prefix := JoinPrefix(dir, name);
    assert NoUnderscore(prefix) by {
      if prefix != "" {
        DirectoryPrefixes(dir);
      }
    }
    NoUnderscoreConcat(prefix, id);
    stem := prefix + id;
    assert prefix + name == stem + ".docx";
  }

  /** Neither directory name, with its separator, holds an underscore. */
  lemma DirectoryPrefixes(dir: string)
    requires dir == UploadDir || dir == ProcessedDir
    ensures NoUnderscore(dir + "/")
  {
    forall k | 0 <= k < |dir + "/"| ensures (dir + "/")[k] != '_' { }
  }

  /** Every path of the form `PathJoin(dir, other + suffix)` is some string
      followed by `suffix`. */
  lemma JoinedWithSuffix(dir: string, other: string, suffix: string) returns (head: string)
    ensures PathJoin(dir, other + suffix) == head + suffix
  {
    head := JoinPrefix(dir, other + suffix) + other;
  }

  /** For an issued identifier, the path `get_document` checks for that
      identifier is never the redline or the clean copy of any document: a
      download request that names a document by its own id is never given
      the path of what the two transforms write. (A request naming some
      other string can be: see `CraftedIdReachesArtifacts`.) */
  lemma DownloadNeverServesArtifacts(id: string, other: string, clean: bool)
    requires IssuedId(id)
    ensures DownloadPath(id, clean) != RedlinePath(other)
    ensures DownloadPath(id, clean) != CleanPath(other)
  {
    IssuedIdHasNoUnderscore(id);
    DownloadIsNoRedline(id, other, clean);
    DownloadIsNoClean(id, other, clean);
  }

  /** A download path without an underscore in its stem is never a redline
      path. */
  lemma DownloadIsNoRedline(id: string, other: string, clean: bool)
    requires NoUnderscore(id)
    ensures DownloadPath(id, clean) != RedlinePath(other)
  {
    var q := DownloadStem(id, clean);
    var r := JoinedWithSuffix(ProcessedDir, other, "_redline.docx");
    assert DownloadPath(id, clean) == q + ".docx";
    assert RedlinePath(other) == r + "_redline.docx";
    SuffixedNamesDiffer(q, r, "_redline.docx");
  }

  /** A download path without an underscore in its stem is never a clean
      path. */
  lemma DownloadIsNoClean(id: string, other: string, clean: bool)
    requires NoUnderscore(id)
    ensures DownloadPath(id, clean) != CleanPath(other)
  {
    var q := DownloadStem(id, clean);
    var c := JoinedWithSuffix(ProcessedDir, other, "_clean.docx");
    assert DownloadPath(id, clean) == q + ".docx";
    assert CleanPath(other) == c + "_clean.docx";
    SuffixedNamesDiffer(q, c, "_clean.docx");
  }

  /** The lookup does not stop other strings from reaching the processed
      files: asking for `{id}_redline` or `{id}_clean` with `clean` set checks
      for, and is given, the path of exactly the redline or the clean copy of
      document `id`. */
  lemma CraftedIdReachesArtifacts(id: string)
    ensures DownloadPath(id + "_redline", true) == RedlinePath(id)
    ensures DownloadPath(id + "_clean", true) == CleanPath(id)
  {
    assert id + "_redline" + ".docx" == id + "_redline.docx";
    assert id + "_clean" + ".docx" == id + "_clean.docx";
  }

  // ---------------------------------------------------------------------
  // Download lookup
  // ---------------------------------------------------------------------

  datatype Located = Located(filePath: string, documentId: string)

  const NotFoundError: Error := NotFound(404, "Document not found")

  /** `get_document(id, clean)` against the set of paths present on disk. */
  function GetDocument(id: string, clean: bool, present: set<string>): (r: Result<Located>)
    ensures r.Success? <==> DownloadPath(id, clean) in present
    ensures r.Success? ==> r.value == Located(DownloadPath(id, clean), id) && r.value.filePath in present
    ensures r.Failure? ==> r.error == NotFoundError
  {
    var filePath := DownloadPath(id, clean);
    if filePath !in present then Failure(NotFoundError)
    else Success(Located(filePath, id))
  }

  /** After upload, redline and clean of one document, the clean download
      fails with not-found although a clean copy exists, and the default
      download returns the path of the unredlined original. */
  lemma DownloadAfterPipeline(id: string)
    requires IssuedId(id)
    ensures var present := {UploadPath(id), MetadataPath(id), RedlinePath(id), CleanPath(id)};
      && GetDocument(id, true, present) == Failure(NotFoundError)
      && GetDocument(id, false, present) == Success(Located(UploadPath(id), id))
  {
    IssuedIdHasNoUnderscore(id);
    CleanDownloadIsNoArtifact(id);
    assert DownloadPath(id, false) == UploadPath(id);
  }

  /** For a relative identifier the clean download path is none of the four
      files the pipeline writes for it: their lengths all differ. */
  lemma CleanDownloadIsNoArtifact(id: string)
    requires !Absolute(id)
    ensures DownloadPath(id, true) !in {UploadPath(id), MetadataPath(id), RedlinePath(id), CleanPath(id)}
  {
    var d, u := DownloadPath(id, true), UploadPath(id);
    var m, r, c := MetadataPath(id), RedlinePath(id), CleanPath(id);
    assert |d| == |id| + 15 && |u| == |id| + 13 && |m| == |id| + 22;
    assert |r| == |id| + 23 && |c| == |id| + 21;
  }

  // ---------------------------------------------------------------------
  // Redline and clean, paragraph by paragraph
  // ---------------------------------------------------------------------

  /** Every run of `runs` given colour `c`, keeping the number of runs. */
  function Recolored(runs: seq<Color>, c: Color): (r: seq<Color>)
    ensures |r| == |runs|
    ensures forall k :: 0 <= k < |r| ==> r[k] == c
  {
    if |runs| == 0 then [] else [c] + Recolored(runs[1..], c)
  }

  /** Assigning `paragraph.text` in python-docx drops the paragraph's runs
      and adds one run holding the new text, with no explicit colour. Only
      the text is relied on below. */
  function AssignText(p: Paragraph, s: string): (q: Paragraph)
    ensures q.text == s
  {
    Paragraph(s, [Inherited])
  }

  /** What the redline does to one paragraph. */
  function RedlineParagraph(p: Paragraph, changes: ChangeMap): (q: Paragraph)
    ensures p.text in changes ==> q.text == changes[p.text].suggestion && AllRuns(q, Red)
    ensures p.text !in changes ==> q == p
  {
    if p.text in changes then
      var q := AssignText(p, changes[p.text].suggestion);
      q.(runs := Recolored(q.runs, Red))
    else p
  }

  function Redlined(doc: Document, changes: ChangeMap): (r: Document)
    ensures |r| == |doc|
  {
    if |doc| == 0 then [] else [RedlineParagraph(doc[0], changes)] + Redlined(doc[1..], changes)
  }

  /** What the clean transform does to one paragraph. */
  function CleanParagraph(p: Paragraph): (q: Paragraph)
    ensures q.text == p.text && |q.runs| == |p.runs| && AllRuns(q, Black)
  {
    p.(runs := Recolored(p.runs, Black))
  }

  function Cleaned(doc: Document): (r: Document)
    ensures |r| == |doc|
  {
    if |doc| == 0 then [] else [CleanParagraph(doc[0])] + Cleaned(doc[1..])
  }

  lemma {:induction false} RedlinedAt(doc: Document, changes: ChangeMap, i: nat)
    requires i < |doc|
    ensures Redlined(doc, changes)[i] == RedlineParagraph(doc[i], changes)
  {
    if i > 0 {
      RedlinedAt(doc[1..], changes, i - 1);
    }
  }

  lemma {:induction false} CleanedAt(doc: Document, i: nat)
    requires i < |doc|
    ensures Cleaned(doc)[i] == CleanParagraph(doc[i])
  {
    if i > 0 {
      CleanedAt(doc[1..], i - 1);
    }
  }

  /** A paragraph whose text is a key ends with that entry's suggestion as
      its text and every run red. Matching is against the original text
      only, so the suggestion is kept even when it is itself a key. */
  lemma RedlineMatched(doc: Document, changes: ChangeMap, i: nat)
    requires i < |doc| && doc[i].text in changes
    ensures Redlined(doc, changes)[i].text == changes[doc[i].text].suggestion
    ensures AllRuns(Redlined(doc, changes)[i], Red)
  {
    RedlinedAt(doc, changes, i);
  }

  /** A paragraph whose text is not a key keeps its text and run colours. */
  lemma RedlineUnmatched(doc: Document, changes: ChangeMap, i: nat)
    requires i < |doc| && doc[i].text !in changes
    ensures Redlined(doc, changes)[i] == doc[i]
  {
    RedlinedAt(doc, changes, i);
  }

  /** When no paragraph text is a key (an empty map, or keys that match
      nothing) the redline leaves the document as it was. */
  lemma {:induction false} RedlineWithoutMatchIsIdentity(doc: Document, changes: ChangeMap)
    requires forall i :: 0 <= i < |doc| ==> doc[i].text !in changes
    ensures Redlined(doc, changes) == doc
  {
    if |doc| > 0 {
      RedlineWithoutMatchIsIdentity(doc[1..], changes);
      assert [doc[0]] + doc[1..] == doc;
    }
  }

  lemma RedlineEmptyChangesIsIdentity(doc: Document)
    ensures Redlined(doc, map[]) == doc
  {
    RedlineWithoutMatchIsIdentity(doc, map[]);
  }

  /** Two paragraphs with the same matched text end identical: the redline
      cannot tell them apart. */
  lemma RedlineSameTextSameResult(doc: Document, changes: ChangeMap, i: nat, j: nat)
    requires i < |doc| && j < |doc|
    requires doc[i].text == doc[j].text && doc[i].text in changes
    ensures Redlined(doc, changes)[i] == Redlined(doc, changes)[j]
  {
    RedlinedAt(doc, changes, i);
    RedlinedAt(doc, changes, j);
  }

  /** Clean keeps every text and the number of runs of every paragraph, and
      turns every run black. */
  lemma CleanKeepsTexts(doc: Document)
    ensures Texts(Cleaned(doc)) == Texts(doc)
    ensures forall i :: 0 <= i < |doc| ==>
      |Cleaned(doc)[i].runs| == |doc[i].runs| && AllRuns(Cleaned(doc)[i], Black)
  {
    forall i | 0 <= i < |doc|
      ensures Cleaned(doc)[i].text == doc[i].text
      ensures |Cleaned(doc)[i].runs| == |doc[i].runs| && AllRuns(Cleaned(doc)[i], Black)
    {
      CleanedAt(doc, i);
    }
  }

  lemma {:induction false} RecoloredTwice(runs: seq<Color>, c: Color)
    ensures Recolored(Recolored(runs, c), c) == Recolored(runs, c)
  {
    if |runs| > 0 {
      RecoloredTwice(runs[1..], c);
      assert Recolored(runs, c)[1..] == Recolored(runs[1..], c);
    }
  }

  /** Clean is idempotent. */
  lemma {:induction false} CleanIdempotent(doc: Document)
    ensures Cleaned(Cleaned(doc)) == Cleaned(doc)
  {
    if |doc| > 0 {
      CleanIdempotent(doc[1..]);
      RecoloredTwice(doc[0].runs, Black);
      assert Cleaned(doc)[1..] == Cleaned(doc[1..]);
    }
  }

  /** Redline then clean: each paragraph reads its suggestion when its
      original text was a key and its original text otherwise, and every run
      is black. */
  lemma RedlineThenClean(doc: Document, changes: ChangeMap, i: nat)
    requires i < |doc|
    ensures var p := Cleaned(Redlined(doc, changes))[i];
      && p.text == (if doc[i].text in changes then changes[doc[i].text].suggestion else doc[i].text)
      && AllRuns(p, Black)
  {
    RedlinedAt(doc, changes, i);
    CleanedAt(Redlined(doc, changes), i);
  }

  /** The worked example: two clauses, the first revised. */
  lemma RedlineExample()
    ensures var doc := [Paragraph("Confidentiality clause A", [Inherited]),
                        Paragraph("Term clause B", [Inherited, Inherited])];
      var changes := map["Confidentiality clause A" := Analysed("Revised confidentiality clause", true, "ok")];
      var red := Redlined(doc, changes);
      && Texts(red) == ["Revised confidentiality clause", "Term clause B"]
      && AllRuns(red[0], Red) && red[1] == doc[1]
      && Texts(Cleaned(red)) == Texts(red)
      && AllRuns(Cleaned(red)[0], Black) && AllRuns(Cleaned(red)[1], Black)
  {
    var doc := [Paragraph("Confidentiality clause A", [Inherited]),
                Paragraph("Term clause B", [Inherited, Inherited])];
    var changes := map["Confidentiality clause A" := Analysed("Revised confidentiality clause", true, "ok")];
    RedlineMatched(doc, changes, 0);
    assert doc[1].text != "Confidentiality clause A";
    RedlineUnmatched(doc, changes, 1);
    CleanKeepsTexts(Redlined(doc, changes));
  }

  // ---------------------------------------------------------------------
  // The transforms, in place over an opened document
  // ---------------------------------------------------------------------

  /** The loop of `create_redline_document` over `doc.paragraphs`. */
  method ApplyRedline(paragraphs: array<Paragraph>, changes: ChangeMap)
    modifies paragraphs
    ensures paragraphs[..] == Redlined(old(paragraphs[..]), changes)
  {
    for i := 0 to paragraphs.Length
      invariant forall k :: 0 <= k < i ==> paragraphs[k] == RedlineParagraph(old(paragraphs[k]), changes)
      invariant forall k :: i <= k < paragraphs.Length ==> paragraphs[k] == old(paragraphs[k])
    {
      var paragraph := paragraphs[i];
      if paragraph.text in changes {
        paragraph := AssignText(paragraph, changes[paragraph.text].suggestion);
        var runs := paragraph.runs;
        for j := 0 to |runs|
          invariant |runs| == |paragraph.runs|
          invariant forall m :: 0 <= m < j ==> runs[m] == Red
        {
          runs := runs[j := Red];
        }
        assert runs == Recolored(paragraph.runs, Red);
        paragraphs[i] := paragraph.(runs := runs);
      }
    }
    ghost var before := old(paragraphs[..]);
    forall k | 0 <= k < paragraphs.Length ensures paragraphs[..][k] == Redlined(before, changes)[k] {
      RedlinedAt(before, changes, k);
    }
  }

  /** The nested loop of `create_clean_document`. */
  method ApplyClean(paragraphs: array<Paragraph>)
    modifies paragraphs
    ensures paragraphs[..] == Cleaned(old(paragraphs[..]))
  {
    for i := 0 to paragraphs.Length
      invariant forall k :: 0 <= k < i ==> paragraphs[k] == CleanParagraph(old(paragraphs[k]))
      invariant forall k :: i <= k < paragraphs.Length ==> paragraphs[k] == old(paragraphs[k])
    {
      var paragraph := paragraphs[i];
      var runs := paragraph.runs;
      for j := 0 to |runs|
        invariant |runs| == |paragraph.runs|
        invariant forall m :: 0 <= m < j ==> runs[m] == Black
      {
        runs := runs[j := Black];
      }
      assert runs == Recolored(paragraph.runs, Black);
      paragraphs[i] := paragraph.(runs := runs);
    }
    ghost var before := old(paragraphs[..]);
    forall k | 0 <= k < paragraphs.Length ensures paragraphs[..][k] == Cleaned(before)[k] {
      CleanedAt(before, k);
    }
  }

  // ---------------------------------------------------------------------
  // The disk and the service operations on it
  // ---------------------------------------------------------------------

  /** The files under the service's two directories: word-processing files
      as their parsed paragraphs, and the paths of the JSON files. */
  class Disk {
    var docs: map<string, Document>
    var json: set<string>

    /** The disk at a first start: `os.makedirs(..., exist_ok=True)` keeps
        files that already exist, so an empty disk models only a service
        started on empty directories. */
    constructor ()
      ensures docs == map[] && json == {}
    {
      docs := map[];
      json := {};
    }

    /** The paths for which `os.path.exists` holds. */
    function Present(): set<string>
      reads this
    {
      docs.Keys + json
    }
  }

  /** Opening a word-processing file: a fresh, mutable list of paragraphs. */
  method Open(content: Document) returns (paragraphs: array<Paragraph>)
    ensures fresh(paragraphs) && paragraphs[..] == content
  {
    paragraphs := new Paragraph[|content|](i requires 0 <= i < |content| => content[i]);
  }

  datatype UploadReceipt = UploadReceipt(documentId: string, message: string, text: string)

  /** `process_upload`, given the identifier drawn for it: stores the file,
      records its metadata and answers with the extracted text. */
  method ProcessUpload(disk: Disk, id: string, content: Document) returns (r: UploadReceipt)
    modifies disk
    ensures disk.docs == old(disk.docs)[UploadPath(id) := content]
    ensures disk.json == old(disk.json) + {MetadataPath(id)}
    ensures r == UploadReceipt(id, "Document uploaded successfully", DocumentText(content))
  {
    var filePath := UploadPath(id);
    disk.docs := disk.docs[filePath := content];
    assert disk.docs[filePath] == content;
    var text := DocumentText(disk.docs[filePath]);
    disk.json := disk.json + {MetadataPath(id)};
    r := UploadReceipt(id, "Document uploaded successfully", text);
  }

  /** The files after `create_redline_document`: when the original exists,
      its redline is (re)written and nothing else changes. */
  function RedlineFiles(docs: map<string, Document>, id: string, changes: ChangeMap): (after: map<string, Document>)
    ensures UploadPath(id) in docs ==>
      RedlinePath(id) in after && after[RedlinePath(id)] == Redlined(docs[UploadPath(id)], changes)
    ensures UploadPath(id) !in docs ==> after == docs
  {
    if UploadPath(id) in docs then docs[RedlinePath(id) := Redlined(docs[UploadPath(id)], changes)]
    else docs
  }

  /** The files after `create_clean_document`. */
  function CleanFiles(docs: map<string, Document>, id: string): (after: map<string, Document>)
    ensures RedlinePath(id) in docs ==>
      CleanPath(id) in after && after[CleanPath(id)] == Cleaned(docs[RedlinePath(id)])
    ensures RedlinePath(id) !in docs ==> after == docs
  {
    if RedlinePath(id) in docs then docs[CleanPath(id) := Cleaned(docs[RedlinePath(id)])]
    else docs
  }

  /** The redline never touches the uploaded original, and writes nothing but
      its own output file. */
  lemma RedlineKeepsOriginal(docs: map<string, Document>, id: string, changes: ChangeMap)
    ensures var after := RedlineFiles(docs, id, changes);
      && (UploadPath(id) in docs ==> after.Keys == docs.Keys + {RedlinePath(id)})
      && (UploadPath(id) !in docs ==> after == docs)
      && forall p :: p in docs && p != RedlinePath(id) ==> p in after && after[p] == docs[p]
  {
    ArtifactPathsDistinct(id);
  }

  /** Every redline starts again from the uploaded original: a second round
      replaces the first one's output instead of compounding it. */
  lemma RedlineReplacesEarlierRedline(docs: map<string, Document>, id: string, first: ChangeMap, second: ChangeMap)
    ensures RedlineFiles(RedlineFiles(docs, id, first), id, second) == RedlineFiles(docs, id, second)
  {
    ArtifactPathsDistinct(id);
  }

  /** The clean copy holds the redlined texts in black, and the original and
      its redline stay as they were. */
  lemma CleanAfterRedline(docs: map<string, Document>, id: string, changes: ChangeMap)
    requires UploadPath(id) in docs
    ensures var after := CleanFiles(RedlineFiles(docs, id, changes), id);
      && after[UploadPath(id)] == docs[UploadPath(id)]
      && after[RedlinePath(id)] == Redlined(docs[UploadPath(id)], changes)
      && after[CleanPath(id)] == Cleaned(Redlined(docs[UploadPath(id)], changes))
  {
    ArtifactPathsDistinct(id);
  }

  /** `create_redline_document`. */
  method CreateRedlineDocument(disk: Disk, id: string, changes: ChangeMap) returns (r: Result<string>)
    modifies disk
    ensures disk.docs == RedlineFiles(old(disk.docs), id, changes)
    ensures disk.json == old(disk.json)
    ensures r == if UploadPath(id) in old(disk.docs) then Success(RedlinePath(id))
                 else Failure(MissingFile(UploadPath(id)))
  {
    var originalPath := UploadPath(id);
    var outputPath := RedlinePath(id);
    if originalPath !in disk.docs {
      return Failure(MissingFile(originalPath));
    }
    var doc := Open(disk.docs[originalPath]);
    ApplyRedline(doc, changes);
    disk.docs := disk.docs[outputPath := doc[..]];
    r := Success(outputPath);
  }

  /** `create_clean_document`. */
  method CreateCleanDocument(disk: Disk, id: string) returns (r: Result<string>)
    modifies disk
    ensures disk.docs == CleanFiles(old(disk.docs), id)
    ensures disk.json == old(disk.json)
    ensures r == if RedlinePath(id) in old(disk.docs) then Success(CleanPath(id))
                 else Failure(MissingFile(RedlinePath(id)))
  {
    var redlinePath := RedlinePath(id);
    var outputPath := CleanPath(id);
    if redlinePath !in disk.docs {
      return Failure(MissingFile(redlinePath));
    }
    var doc := Open(disk.docs[redlinePath]);
    ApplyClean(doc);
    disk.docs := disk.docs[outputPath := doc[..]];
    r := Success(outputPath);
  }

  /** A first start followed by the whole pipeline for one upload, then both
      download lookups against the files then on disk: the clean lookup is
      not-found and the default lookup is given the upload's path. */
  method PipelineDownloads(id: string, content: Document, changes: ChangeMap)
    returns (cleanLookup: Result<Located>, defaultLookup: Result<Located>)
    requires IssuedId(id)
    ensures cleanLookup == Failure(NotFoundError)
    ensures defaultLookup == Success(Located(UploadPath(id), id))
  {
    var disk := new Disk();
    var _ := ProcessUpload(disk, id, content);
    var _ := CreateRedlineDocument(disk, id, changes);
    var _ := CreateCleanDocument(disk, id);
    IssuedIdHasNoUnderscore(id);
    assert disk.Present() == {UploadPath(id), MetadataPath(id), RedlinePath(id), CleanPath(id)};
    CleanDownloadIsNoArtifact(id);
    cleanLookup := GetDocument(id, true, disk.Present());
    defaultLookup := GetDocument(id, false, disk.Present());
  }
}
