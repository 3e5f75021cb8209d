/** The values shared by the document service and the analysis service: a
    word-processing document as an ordered sequence of paragraphs, the change
    map that drives the redline, the service's error outcomes, and the plain
    text that is extracted from a document. */
module DocModel {

  /** The colour of one text run. `Inherited` is a run with no explicit
      colour (python-docx reports it as `None`). */
  datatype Color = Inherited | Rgb(red: int, green: int, blue: int)

  const Red: Color := Rgb(255, 0, 0)
  const Black: Color := Rgb(0, 0, 0)

  /** A paragraph: its text and the colours of its runs, in order. */
  datatype Paragraph = Paragraph(text: string, runs: seq<Color>)

  type Document = seq<Paragraph>

  /** One value of the change map. The analysis path records the validator's
      verdict; the feedback path has no `validated` field at all. */
  datatype Entry =
    | Analysed(suggestion: string, validated: bool, feedback: string)
    | Revised(suggestion: string, feedback: string)

  /** The change map: original paragraph text to its entry. */
  type ChangeMap = map<string, Entry>

  /** The ways a request can fail. `NotFound` is the HTTP 404 that
      `get_document` raises; `MissingFile` is opening a path that does not
      exist (by `open` or by python-docx). */
  datatype Error =
    | NotFound(status: int, detail: string)
    | MissingFile(path: string)

  datatype Result<T> = Success(value: T) | Failure(error: Error)

  /** True when every run of `p` has colour `c`. */
  predicate AllRuns(p: Paragraph, c: Color)
  {
    forall k :: 0 <= k < |p.runs| ==> p.runs[k] == c
  }

  /** The paragraph texts in document order, empty paragraphs included. */
  function Texts(doc: Document): (ts: seq<string>)
    ensures |ts| == |doc|
    ensures forall i :: 0 <= i < |doc| ==> ts[i] == doc[i].text
  {
    seq(|doc|, i requires 0 <= i < |doc| => doc[i].text)
  }

  /** `"\n".join(parts)`: the parts in order, one separator between each
      neighbouring pair, so an empty part still adds its separator. */
  function JoinLines(parts: seq<string>): (s: string)
    ensures |parts| == 0 ==> s == ""
    ensures |parts| >= 1 ==> |s| == TotalLength(parts) + |parts| - 1
    ensures |parts| >= 1 ==> s[..|parts[0]|] == parts[0]
  {
    if |parts| == 0 then ""
    else if |parts| == 1 then parts[0]
    else parts[0] + "\n" + JoinLines(parts[1..])
  }

  /** The text the service extracts from a document: its paragraph texts
      in order, one newline between neighbours, empty paragraphs included. */
  function DocumentText(doc: Document): (s: string)
    ensures |doc| == 0 ==> s == ""
    ensures |doc| >= 1 ==> |s| == TotalLength(Texts(doc)) + |doc| - 1
    ensures |doc| >= 1 ==> s[..|doc[0].text|] == doc[0].text
  {
    JoinLines(Texts(doc))
  }

  /** `s.split("\n")`: the inverse of `JoinLines` used to state what the
      extracted text determines. */
  function SplitLines(s: string): (parts: seq<string>)
    ensures |parts| >= 1
  {
    if |s| == 0 then [""]
    else
      var rest := SplitLines(s[1..]);
      if s[0] == '\n' then [""] + rest
      else [[s[0]] + rest[0]] + rest[1..]
  }

  predicate NoNewline(s: string)
  {
    forall k :: 0 <= k < |s| ==> s[k] != '\n'
  }

  /** Splitting the extracted text at newlines and joining again gives the
      text back. */
  lemma {:induction false} JoinSplit(s: string)
    ensures JoinLines(SplitLines(s)) == s
  {
    if |s| > 0 {
      var rest := SplitLines(s[1..]);
      JoinSplit(s[1..]);
      if s[0] == '\n' {
        assert SplitLines(s) == [""] + rest;
        assert ([""] + rest)[1..] == rest;
        assert s == "\n" + s[1..];
      } else if |rest| == 1 {
        assert SplitLines(s) == [[s[0]] + rest[0]];
        assert s == [s[0]] + s[1..];
      } else {
        var parts := [[s[0]] + rest[0]] + rest[1..];
        assert SplitLines(s) == parts;
        assert parts[1..] == rest[1..];
        assert JoinLines(rest) == rest[0] + "\n" + JoinLines(rest[1..]);
        assert s == [s[0]] + s[1..];
      }
    }
  }

  /** A newline-free line followed by a newline starts a new part. */
  lemma {:induction false} SplitAfterLine(a: string, b: string)
    requires NoNewline(a)
    ensures SplitLines(a + "\n" + b) == [a] + SplitLines(b)
  {
    if |a| == 0 {
      assert a + "\n" + b == "\n" + b;
      assert ("\n" + b)[1..] == b;
    } else {
      var s := a + "\n" + b;
      assert s[1..] == a[1..] + "\n" + b;
      SplitAfterLine(a[1..], b);
      assert [a[0]] + a[1..] == a;
    }
  }

  /** A newline-free line is one part. */
  lemma {:induction false} SplitSingleLine(a: string)
    requires NoNewline(a)
    ensures SplitLines(a) == [a]
  {
    if |a| > 0 {
      SplitSingleLine(a[1..]);
      assert [a[0]] + a[1..] == a;
    }
  }

  /** When no paragraph text contains a newline, the extracted text
      determines the paragraph texts of a non-empty document exactly. */
  lemma {:induction false} SplitJoin(parts: seq<string>)
    requires |parts| >= 1
    requires forall i :: 0 <= i < |parts| ==> NoNewline(parts[i])
    ensures SplitLines(JoinLines(parts)) == parts
  {
    if |parts| == 1 {
      SplitSingleLine(parts[0]);
    } else {
      SplitJoin(parts[1..]);
      SplitAfterLine(parts[0], JoinLines(parts[1..]));
      assert [parts[0]] + parts[1..] == parts;
    }
  }

  /** The extracted text of a document is its paragraph texts, one per line,
      when no paragraph text contains a newline. */
  lemma ExtractedTextLines(doc: Document)
    requires |doc| >= 1
    requires forall i :: 0 <= i < |doc| ==> NoNewline(doc[i].text)
    ensures SplitLines(DocumentText(doc)) == Texts(doc)
  {
    SplitJoin(Texts(doc));
  }

  /** The summed length of `parts`. */
  function TotalLength(parts: seq<string>): nat
  {
    if |parts| == 0 then 0 else |parts[0]| + TotalLength(parts[1..])
  }
}
