/** The deterministic part of src/lib/gemini.ts: the batch prompt, the parser
    that cuts the model's reply into one summary per file, the fallbacks, and
    the truncation and error handling of the single-file summary. The model
    itself is a function parameter from the prompt to a `Reply`. */
module Gemini {
  import opened Common
  import opened Strings

  /** One entry of the `files` array of `batchSummariseCode`. */
  datatype SourceFile = SourceFile(fileName: string, code: string)

  /** The fields of a LangChain `Document` that `summariseCode` reads. */
  datatype Document = Document(source: string, pageContent: string)

  /** Characters of each file kept in the batch prompt. */
  const BatchCodeLimit: nat := 8000

  /** Characters of the document kept in the single-file prompt. */
  const CodeLimit: nat := 10000

  /** The section marker `[FILE i]`. */
  function Marker(i: nat): (m: string)
    ensures |m| == 7 + |NatToString(i)|
    ensures m[0] == '['
  {
    "[FILE " + NatToString(i) + "]"
  }

  /** `files[i - 1]?.fileName || 'unknown file'`: an empty name is replaced. */
  function DisplayName(fileName: string): (r: string)
    ensures r != ""
    ensures fileName != "" ==> r == fileName
  {
    if fileName == "" then "unknown file" else fileName
  }

  /** The text used for a file whose section is missing or empty. */
  function Fallback(fileName: string): (r: string)
    ensures r != ""
  {
    "Summary for " + DisplayName(fileName)
  }

  /** The text used for every file when the model call throws. */
  function Failed(fileName: string): (r: string)
    ensures r != ""
  {
    "Summary generation failed for " + fileName
  }

  /** One file of the prompt: a header naming the 1-based index and the file,
      the code cut to its first 8000 characters, and a footer. */
  function FilePrompt(i: nat, f: SourceFile): (r: string)
  {
    "--- FILE " + NatToString(i) + ": " + f.fileName + " ---\n"
    + Truncate(f.code, BatchCodeLimit)
    + "\n--- END FILE " + NatToString(i) + " ---"
  }

  /** `parts.join("\n\n")`. */
  function JoinBlankLines(parts: seq<string>): (r: string)
    ensures parts == [] ==> r == ""
    ensures |parts| == 1 ==> r == parts[0]
  {
    if parts == [] then ""
    else if |parts| == 1 then parts[0]
    else parts[0] + "\n\n" + JoinBlankLines(parts[1..])
  }

  /** Joining one more part appends it after a blank line. */
  lemma {:induction false} JoinBlankLinesSnoc(parts: seq<string>, p: string)
    requires parts != []
    ensures JoinBlankLines(parts + [p]) == JoinBlankLines(parts) + "\n\n" + p
  {
    if |parts| > 1 {
      assert (parts + [p])[1..] == parts[1..] + [p];
      JoinBlankLinesSnoc(parts[1..], p);
    }
  }

  /** The prompt of every file, numbered from 1 in input order. */
  function FilePrompts(files: seq<SourceFile>): (r: string)
  {
    JoinBlankLines(seq(|files|, k requires 0 <= k < |files| => FilePrompt(k + 1, files[k])))
  }

  /** Adding a file adds its prompt, numbered after the others, at the end and
      leaves the earlier prompts as they were. */
  lemma FilePromptsSnoc(files: seq<SourceFile>, f: SourceFile)
    requires files != []
    ensures FilePrompts(files + [f]) == FilePrompts(files) + "\n\n" + FilePrompt(|files| + 1, f)
  {
    var parts := seq(|files|, k requires 0 <= k < |files| => FilePrompt(k + 1, files[k]));
    var files' := files + [f];
    assert seq(|files'|, k requires 0 <= k < |files'| => FilePrompt(k + 1, files'[k]))
      == parts + [FilePrompt(|files| + 1, f)];
    JoinBlankLinesSnoc(parts, FilePrompt(|files| + 1, f));
  }

  /** What the batch prompt carries besides its fixed wording: the number of
      files, which the instructions name twice and which decides how many
      example sections (up to five) they show, and the joined file prompts. */
  datatype BatchRequest = BatchRequest(fileCount: nat, filePrompts: string)

  /** The single prompt of `batchSummariseCode` for `files`. */
  function BatchRequestOf(files: seq<SourceFile>): BatchRequest
  {
    BatchRequest(|files|, FilePrompts(files))
  }

  /** Where the section of file `i` ends: at the first `[FILE i+1]`, or at the
      end of the text for the last file or when that marker is absent. */
  function SectionEnd(text: string, i: nat, n: nat): (e: nat)
    ensures e <= |text|
    ensures i < n && Contains(text, Marker(i + 1)) ==> e == IndexOf(text, Marker(i + 1))
    ensures !(i < n && Contains(text, Marker(i + 1))) ==> e == |text|
  {
    if i < n then
      var e := IndexOf(text, Marker(i + 1));
      if e == -1 then |text| else e
    else |text|
  }

  /** The summary of file `i` given where its marker starts (-1 when absent)
      and where its section ends: the trimmed text between, or the fallback
      when the marker is missing or that text is empty. */
  function EntryAt(files: seq<SourceFile>, text: string, i: nat, start: int, end: nat): (r: string)
    requires 1 <= i <= |files| && end <= |text|
    requires start == -1 || 0 <= start <= |text| - |Marker(i)|
    ensures r != ""
  {
    if start == -1 then Fallback(files[i - 1].fileName)
    else
      var summary := Trim(Slice(text, start + |Marker(i)|, end));
      if summary == "" then Fallback(files[i - 1].fileName) else summary
  }

  /** The summary of file `i` (1-based) read from the reply `text`, cut after
      the first `[FILE i]`. Never empty. */
  function Entry(files: seq<SourceFile>, text: string, i: nat): (r: string)
    requires 1 <= i <= |files|
    ensures r != ""
    ensures !Contains(text, Marker(i)) ==> r == Fallback(files[i - 1].fileName)
  {
    EntryAt(files, text, i, IndexOf(text, Marker(i)), SectionEnd(text, i, |files|))
  }

  /** The summaries the parse loop produces, one per file in input order. */
  function ParsedSummaries(files: seq<SourceFile>, text: string): (r: seq<string>)
    ensures |r| == |files|
    ensures forall k :: 0 <= k < |files| ==> r[k] == Entry(files, text, k + 1)
  {
    seq(|files|, k requires 0 <= k < |files| => Entry(files, text, k + 1))
  }

  /** Where the section of file `i` ends in the parse loop: at the next
      file's marker, or at the end of the reply. */
  method FindSectionEnd(responseText: string, i: nat, n: nat) returns (endIdx: nat)
    ensures endIdx == SectionEnd(responseText, i, n)
  {
    if i < n {
      var next := IndexOf(responseText, Marker(i + 1));
      endIdx := if next == -1 then |responseText| else next;
    } else {
      endIdx := |responseText|;
    }
  }

  /** One pass of the parse loop: the summary of file `i`. */
  method ReadEntry(files: seq<SourceFile>, responseText: string, i: nat) returns (entry: string)
    requires 1 <= i <= |files|
    ensures entry == Entry(files, responseText, i)
  {
    var startMarker := Marker(i);
    var startIdx := IndexOf(responseText, startMarker);
    var endIdx := FindSectionEnd(responseText, i, |files|);
    if startIdx == -1 {
      entry := Fallback(files[i - 1].fileName);
    } else {
      var summary := Trim(Slice(responseText, startIdx + |startMarker|, endIdx));
      entry := if summary != "" then summary else Fallback(files[i - 1].fileName);
    }
    assert entry == EntryAt(files, responseText, i, startIdx, endIdx);
  }

  /** The parse loop of `batchSummariseCode`. */
  method ParseSummaries(files: seq<SourceFile>, responseText: string) returns (summaries: seq<string>)
    ensures summaries == ParsedSummaries(files, responseText)
  {
    summaries := [];
    var i := 1;
    while i <= |files|
      invariant 1 <= i <= |files| + 1
      invariant summaries == ParsedSummaries(files, responseText)[..i - 1]
    {
      var entry := ReadEntry(files, responseText, i);
      PrefixSnoc(ParsedSummaries(files, responseText), i - 1);
      summaries := summaries + [entry];
      i := i + 1;
    }
  }

  /** The summaries used when the model call throws. */
  function FailedSummaries(files: seq<SourceFile>): (r: seq<string>)
    ensures |r| == |files|
    ensures forall k :: 0 <= k < |files| ==> r[k] == Failed(files[k].fileName)
  {
    seq(|files|, k requires 0 <= k < |files| => Failed(files[k].fileName))
  }

  /** `batchSummariseCode(files)` with the model as `generate`. `requests` lists
      the prompts sent: none for an empty list, else the one batch prompt. */
  method BatchSummariseCode(files: seq<SourceFile>, generate: BatchRequest -> Reply)
    returns (summaries: seq<string>, requests: seq<BatchRequest>)
    ensures |summaries| == |files|
    ensures files == [] ==> requests == []
    ensures files != [] ==> requests == [BatchRequestOf(files)]
    ensures files != [] ==> match generate(BatchRequestOf(files))
      case Reply(text) => summaries == ParsedSummaries(files, text)
      case Failure(_) => summaries == FailedSummaries(files)
  {
    if |files| == 0 {
      return [], [];
    }
    var prompt := BatchRequestOf(files);
    requests := [prompt];
    match generate(prompt)
    case Reply(text) =>
      summaries := ParseSummaries(files, text);
    case Failure(_) =>
      summaries := FailedSummaries(files);
  }

  /** A file whose marker is followed by the next file's marker (or nothing
      but whitespace) gets the fallback. */
  lemma {:induction false} EmptySectionFallback(files: seq<SourceFile>, text: string, i: nat)
    requires 1 <= i < |files|
    requires Contains(text, Marker(i)) && Contains(text, Marker(i + 1))
    requires IndexOf(text, Marker(i + 1)) < IndexOf(text, Marker(i)) + |Marker(i)|
    ensures Entry(files, text, i) == Fallback(files[i - 1].fileName)
  {
  }

  // ---- Round trip: a reply in the requested format is read back exactly ----

  /** A summary the format can carry: non-empty, no whitespace at either end
      and no `[` anywhere. */
  predicate Clean(s: string)
  {
    && s != ""
    && !IsWhitespace(s[0]) && !IsWhitespace(s[|s| - 1])
    && forall k :: 0 <= k < |s| ==> s[k] != '['
  }

  /** The text of a section after its marker. */
  function Body(s: string): string
  {
    "\n" + s + "\n\n"
  }

  /** One section of a well-formed reply. */
  function Block(i: nat, s: string): string
  {
    Marker(i) + Body(s)
  }

  /** The reply the prompt asks for, sections numbered from `k`. */
  function FormatFrom(k: nat, ss: seq<string>): string
    decreases |ss|
  {
    if ss == [] then "" else Block(k, ss[0]) + FormatFrom(k + 1, ss[1..])
  }

  lemma {:induction false} FormatFromSplit(k: nat, a: seq<string>, b: seq<string>)
    ensures FormatFrom(k, a + b) == FormatFrom(k, a) + FormatFrom(k + |a|, b)
    decreases |a|
  {
    if a == [] {
      assert a + b == b;
      assert FormatFrom(k, a) + FormatFrom(k, b) == FormatFrom(k, b);
    } else {
      FormatFromCons(k, a, b);
      FormatFromSplit(k + 1, a[1..], b);
      assert k + 1 + |a[1..]| == k + |a|;
      ConcatAssoc(Block(k, a[0]), FormatFrom(k + 1, a[1..]), FormatFrom(k + |a|, b));
    }
  }

  /** The first section of a concatenation is the first of its left part. */
  lemma FormatFromCons(k: nat, a: seq<string>, b: seq<string>)
    requires a != []
    ensures FormatFrom(k, a) == Block(k, a[0]) + FormatFrom(k + 1, a[1..])
    ensures FormatFrom(k, a + b) == Block(k, a[0]) + FormatFrom(k + 1, a[1..] + b)
  {
    HeadTailAppend(a, b);
  }

  /** A pattern does not occur where one of its characters disagrees with the text. */
  lemma CharMismatch(t: string, pat: string, p: int, k: int)
    requires 0 <= k < |pat| && 0 <= p + k < |t| && t[p + k] != pat[k]
    ensures !OccursAt(t, pat, p)
  {
    if 0 <= p && p + |pat| <= |t| {
      assert t[p..p + |pat|][k] == t[p + k];
    }
  }

  /** Where one marker is found, no other marker starts. */
  lemma MarkersClash(t: string, p: int, i: nat, j: nat)
    requires OccursAt(t, Marker(j), p) && i != j
    ensures !OccursAt(t, Marker(i), p)
  {
    var a := NatToString(i);
    var b := NatToString(j);
    var mj := Marker(j);
    assert t[p..p + |mj|] == mj;
    if |a| < |b| {
      assert t[p + 6 + |a|] == t[p..p + |mj|][6 + |a|] == b[|a|];
      CharMismatch(t, Marker(i), p, 6 + |a|);
    } else if |b| < |a| {
      assert t[p + 6 + |b|] == t[p..p + |mj|][6 + |b|] == ']';
      assert Marker(i)[6 + |b|] == a[|b|];
      CharMismatch(t, Marker(i), p, 6 + |b|);
    } else {
      if a == b {
        NatToStringInjective(i, j);
      }
      var k :| 0 <= k < |a| && a[k] != b[k];
      assert t[p + 6 + k] == t[p..p + |mj|][6 + k] == b[k];
      assert Marker(i)[6 + k] == a[k];
      CharMismatch(t, Marker(i), p, 6 + k);
    }
  }

  /** Inside a block only its first character is `[`. */
  lemma BlockBrackets(i: nat, s: string, p: int)
    requires forall k :: 0 <= k < |s| ==> s[k] != '['
    requires 0 < p < |Block(i, s)|
    ensures Block(i, s)[p] != '['
  {
    var m := Marker(i);
    var d := NatToString(i);
    if p < |m| {
      if 6 <= p < 6 + |d| {
        assert m[p] == d[p - 6];
      }
    } else if p == |m| {
    } else if p < |m| + 1 + |s| {
      assert Block(i, s)[p] == s[p - |m| - 1];
    }
  }

  lemma OccursShiftedBack(s: string, t: string, pat: string, q: int)
    requires !OccursAt(t, pat, q) && q >= 0
    ensures !OccursAt(s + t, pat, |s| + q)
  {
    if |s| + q + |pat| <= |s + t| {
      assert (s + t)[|s| + q..|s| + q + |pat|] == t[q..q + |pat|];
    }
  }

  /** A marker numbered outside the sections of `FormatFrom(k, ss)` does not
      start anywhere inside them, whatever text follows. */
  lemma {:induction false} NoMarkerBefore(k: nat, ss: seq<string>, rest: string, i: nat)
    requires forall n :: 0 <= n < |ss| ==> Clean(ss[n])
    requires i < k || k + |ss| <= i
    ensures forall p :: 0 <= p < |FormatFrom(k, ss)| ==> !OccursAt(FormatFrom(k, ss) + rest, Marker(i), p)
    decreases |ss|
  {
    if ss != [] {
      var blk := Block(k, ss[0]);
      var tail := FormatFrom(k + 1, ss[1..]);
      var t := FormatFrom(k, ss) + rest;
      assert t == blk + (tail + rest);
      NoMarkerBefore(k + 1, ss[1..], rest, i);
      forall p | 0 <= p < |FormatFrom(k, ss)|
        ensures !OccursAt(t, Marker(i), p)
      {
        if p == 0 {
          assert t[..|Marker(k)|] == Marker(k);
          MarkersClash(t, 0, i, k);
        } else if p < |blk| {
          BlockBrackets(k, ss[0], p);
          assert t[p] == blk[p];
          CharMismatch(t, Marker(i), p, 0);
        } else {
          OccursShiftedBack(blk, tail + rest, Marker(i), p - |blk|);
        }
      }
    }
  }

  /** In the formatted reply the first `[FILE i]` is the start of section `i`. */
  lemma MarkerFound(ss: seq<string>, i: nat)
    requires forall n :: 0 <= n < |ss| ==> Clean(ss[n])
    requires 1 <= i <= |ss|
    ensures Contains(FormatFrom(1, ss), Marker(i))
    ensures IndexOf(FormatFrom(1, ss), Marker(i)) == |FormatFrom(1, ss[..i - 1])|
  {
    var a := ss[..i - 1];
    var b := ss[i - 1..];
    assert ss == a + b;
    FormatFromSplit(1, a, b);
    var t := FormatFrom(1, ss);
    var rest := FormatFrom(i, b);
    assert t == FormatFrom(1, a) + rest;
    NoMarkerBefore(1, a, rest, i);
    assert rest == Marker(i) + ("\n" + b[0] + "\n\n" + FormatFrom(i + 1, b[1..]));
    assert t[|FormatFrom(1, a)|..|FormatFrom(1, a)| + |Marker(i)|] == Marker(i);
    assert OccursAt(t, Marker(i), |FormatFrom(1, a)|);
    IndexOfIs(t, Marker(i), |FormatFrom(1, a)|);
  }

  /** Trimming the blank lines around a clean summary gives the summary. */
  lemma TrimBlock(s: string)
    requires Clean(s)
    ensures Trim(Body(s)) == s
  {
    TrimPadded("\n", s, "\n\n");
  }

  lemma SliceBody(a: string, m: string, b: string, c: string)
    ensures |a| + |m| + |b| <= |(a + (m + b)) + c|
    ensures ((a + (m + b)) + c)[|a| + |m|..|a| + |m| + |b|] == b
  {
  }

  /** The formatted reply around section `i`. */
  lemma FormatAround(ss: seq<string>, i: nat)
    requires 1 <= i <= |ss|
    ensures FormatFrom(1, ss[..i]) == FormatFrom(1, ss[..i - 1]) + Block(i, ss[i - 1])
    ensures FormatFrom(1, ss) == FormatFrom(1, ss[..i]) + FormatFrom(i + 1, ss[i..])
  {
    assert ss[..i] == ss[..i - 1] + [ss[i - 1]];
    FormatFromSplit(1, ss[..i - 1], [ss[i - 1]]);
    assert FormatFrom(i, [ss[i - 1]]) == Block(i, ss[i - 1]) + FormatFrom(i + 1, []);
    assert ss == ss[..i] + ss[i..];
    FormatFromSplit(1, ss[..i], ss[i..]);
  }

  /** Section `i` of the formatted reply ends where section `i + 1` starts, or
      at the end of the text. */
  lemma SectionEndOfFormat(files: seq<SourceFile>, ss: seq<string>, i: nat)
    requires |ss| == |files|
    requires forall n :: 0 <= n < |ss| ==> Clean(ss[n])
    requires 1 <= i <= |ss|
    ensures SectionEnd(FormatFrom(1, ss), i, |files|) == |FormatFrom(1, ss[..i])|
  {
    FormatAround(ss, i);
    if i < |ss| {
      MarkerFound(ss, i + 1);
      assert ss[..i + 1 - 1] == ss[..i];
    } else {
      assert ss[i..] == [];
    }
  }

  /** The entry read from a section laid out as marker and body, with the
      body trimming to a non-empty summary, is that summary. */
  lemma EntryAtBlock(files: seq<SourceFile>, t: string, i: nat, before: string, b: string, rest: string, s: string)
    requires 1 <= i <= |files|
    requires t == (before + (Marker(i) + b)) + rest
    requires Trim(b) == s && s != ""
    ensures |before| + |Marker(i)| + |b| <= |t|
    ensures EntryAt(files, t, i, |before|, |before| + |Marker(i)| + |b|) == s
  {
    SliceBody(before, Marker(i), b, rest);
  }

  /** Entry `i` of the formatted reply is the `i`-th summary. */
  lemma EntryOfFormat(files: seq<SourceFile>, ss: seq<string>, i: nat)
    requires |ss| == |files|
    requires forall n :: 0 <= n < |ss| ==> Clean(ss[n])
    requires 1 <= i <= |ss|
    ensures Entry(files, FormatFrom(1, ss), i) == ss[i - 1]
  {
    var t := FormatFrom(1, ss);
    var before := FormatFrom(1, ss[..i - 1]);
    var b := Body(ss[i - 1]);
    MarkerFound(ss, i);
    SectionEndOfFormat(files, ss, i);
    FormatAround(ss, i);
    TrimBlock(ss[i - 1]);
    assert FormatFrom(1, ss[..i]) == before + (Marker(i) + b);
    EntryAtBlock(files, t, i, before, b, FormatFrom(i + 1, ss[i..]), ss[i - 1]);
  }

  /** Parsing a reply in exactly the requested format, with clean summaries,
      gives back those summaries: no fallback, nothing lost, nothing moved. */
  lemma ParseFormatRoundTrip(files: seq<SourceFile>, ss: seq<string>)
    requires |ss| == |files|
    requires forall n :: 0 <= n < |ss| ==> Clean(ss[n])
    ensures ParsedSummaries(files, FormatFrom(1, ss)) == ss
  {
    forall i | 1 <= i <= |ss|
      ensures Entry(files, FormatFrom(1, ss), i) == ss[i - 1]
    {
      EntryOfFormat(files, ss, i);
    }
  }

  /** What the single-file prompt carries besides its fixed wording: the file's
      path and the code sent, cut to its first 10000 characters. */
  datatype CodeRequest = CodeRequest(source: string, code: string)

  function RequestOf(doc: Document): (req: CodeRequest)
    ensures req.source == doc.source
    ensures |req.code| <= CodeLimit && |req.code| <= |doc.pageContent|
    ensures req.code == doc.pageContent[..|req.code|]
    ensures |doc.pageContent| <= CodeLimit ==> req.code == doc.pageContent
  {
    CodeRequest(doc.source, Truncate(doc.pageContent, CodeLimit))
  }

  /** The five prompt parts of `summariseCode` for a request. */
  function CodePromptParts(req: CodeRequest): seq<string>
  {
    [ "You are an intelligent senior software engineer who specialises in onboarding junior software engineers onto projects.",
      "You are onboarding a junior software engineer and explaining to them the purpose of the " + req.source + " file.",
      "Here is the code:",
      req.code,
      "Give a summary no more than 100 words of the code above." ]
  }

  /** `summariseCode(doc)` with the model as `generate`, which answers the
      request `CodePromptParts` renders: the reply text, or the empty string
      when the call throws. */
  function SummariseCode(doc: Document, generate: CodeRequest -> Reply): (r: string)
    ensures generate(RequestOf(doc)).Failure? ==> r == ""
    ensures generate(RequestOf(doc)).Reply? ==> r == generate(RequestOf(doc)).text
  {
    match generate(RequestOf(doc))
    case Reply(text) => text
    case Failure(_) => ""
  }

  /** Nothing past the first 10000 characters of a document reaches the model:
      two documents with the same path that agree up to there send the same
      request, and so, for a model that answers a request the same way each
      time, get the same summary. */
  lemma SummaryIgnoresTail(d1: Document, d2: Document, generate: CodeRequest -> Reply)
    requires d1.source == d2.source
    requires |d1.pageContent| >= CodeLimit && |d2.pageContent| >= CodeLimit
    requires d1.pageContent[..CodeLimit] == d2.pageContent[..CodeLimit]
    ensures RequestOf(d1) == RequestOf(d2)
    ensures SummariseCode(d1, generate) == SummariseCode(d2, generate)
  {
    assert RequestOf(d1).code == d1.pageContent[..CodeLimit];
    assert RequestOf(d2).code == d2.pageContent[..CodeLimit];
  }
}
