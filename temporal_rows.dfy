/** The row loop of extract_mimic_temporal.py: which notes are skipped, how
    each sentence's token list is prepared, the call to the temporal
    service, and which `mimic_<ROW_ID>.json` files a run leaves behind. */
module TemporalRows {
  import opened Builtins
  import opened TemporalAssembly
  import opened AssemblyProperties

  /** The service's reply: its status code and the parsed body, None when
      `r.json()` raises or a key is missing. */
  datatype Response = Response(status: int, body: Option<Annotations>)

  /** The parts of the loop that live outside the script. */
  datatype Libraries = Libraries(
    segment: string -> Option<seq<Span>>,             // rush.segToSentenceSpans; None when it raises
    tokenize: string -> seq<string>,                  // wordpunct_tokenize
    align: Aligner,                                   // align_tokens
    post: (seq<seq<string>>, string) -> Response)     // requests.post to the temporal endpoint

  /** A CSV row: `int(row['ROW_ID'])` and `row['TEXT']`. */
  datatype Row = Row(rowId: int, text: string)

  datatype SkipReason = EmptyText | AlreadyWritten | NoSentences | NoTokenizedSentences | Raised

  /** What one row leads to: no file (and why), or the `temporal_info`
      written to its file. */
  datatype RowOutcome = Skipped(reason: SkipReason) | Written(info: TemporalInfo)

  /** The pseudo-token that marks a sentence ending in a line break. */
  const CrToken := "<cr>"

  /** `'mimic_%d.json' % (row_id,)`, inside the output directory. */
  function OutputName(rowId: int): string
  {
    "mimic_" + IntToString(rowId) + ".json"
  }

  /** `'MIMIC_ROWID=%s' % (str(row_id))` */
  function Metadata(rowId: int): string
  {
    "MIMIC_ROWID=" + IntToString(rowId)
  }

  // ---------------------------------------------------------------------
  // Token lists (lines 58-72)

  /** The token list of one sentence, with `<cr>` appended when the note's
      character at `sentence.end - 1` is a line break; None stands for the
      IndexError of that lookup. */
  function SentenceTokens(tokenize: string -> seq<string>, text: string, sp: Span): Option<seq<string>>
  {
    var tokens := tokenize(Slice(text, sp.begin, sp.end));
    match PyAt(text, sp.end - 1)
    case None => None
    case Some(c) => Some(if c == '\n' then tokens + [CrToken] else tokens)
  }

  /** The sentence loop from sentence i on: non-empty token lists are
      appended to acc, empty ones are dropped. */
  function SentTokensFrom(tokenize: string -> seq<string>, text: string, sentences: seq<Span>, i: nat,
                          acc: seq<seq<string>>): Option<seq<seq<string>>>
    requires i <= |sentences|
    decreases |sentences| - i
  {
    if i == |sentences| then Some(acc)
    else
      match SentenceTokens(tokenize, text, sentences[i])
      case None => None
      case Some(t) => SentTokensFrom(tokenize, text, sentences, i + 1, if |t| > 0 then acc + [t] else acc)
  }

  method PrepareSentTokens(tokenize: string -> seq<string>, text: string, sentences: seq<Span>)
    returns (r: Option<seq<seq<string>>>)
    ensures r == SentTokensFrom(tokenize, text, sentences, 0, [])
  {
    var sentTokens: seq<seq<string>> := [];
    var i := 0;
    while i < |sentences|
      invariant i <= |sentences|
      invariant SentTokensFrom(tokenize, text, sentences, i, sentTokens) == SentTokensFrom(tokenize, text, sentences, 0, [])
    {
      var sentence := sentences[i];
      var tokens := tokenize(Slice(text, sentence.begin, sentence.end));
      var last := PyAt(text, sentence.end - 1);
      if last.None? {
        return None;
      }
      if last.value == '\n' {
        tokens := tokens + [CrToken];
      }
      if |tokens| > 0 {
        sentTokens := sentTokens + [tokens];
      }
      i := i + 1;
    }
    r := Some(sentTokens);
  }

  /** The number of sentences from i on whose token list is empty. */
  function DroppedFrom(tokenize: string -> seq<string>, text: string, sentences: seq<Span>, i: nat): nat
    requires i <= |sentences|
    decreases |sentences| - i
  {
    if i == |sentences| then 0
    else
      (match SentenceTokens(tokenize, text, sentences[i]) case Some(t) => if |t| == 0 then 1 else 0 case None => 0)
      + DroppedFrom(tokenize, text, sentences, i + 1)
  }

  /** A sentence that ends in a line break gets `<cr>` as its last token, so
      its list is never empty and never dropped; any other sentence keeps
      the tokenizer's list as it is. */
  lemma CrMarksLineBreak(tokenize: string -> seq<string>, text: string, sp: Span)
    requires 0 < sp.end <= |text|
    ensures var t := SentenceTokens(tokenize, text, sp).value;
            var tokens := tokenize(Slice(text, sp.begin, sp.end));
            if text[sp.end - 1] == '\n'
            then |t| == |tokens| + 1 && t[|t| - 1] == CrToken && t[..|tokens|] == tokens
            else t == tokens
  {
  }

  /** The loop fails exactly when some sentence's `text[end-1]` lookup is
      out of range; otherwise every kept list is non-empty and one list is
      kept per sentence that did not tokenize to nothing (which lists, and
      where, is SentTokensContents). */
  lemma {:induction false} SentTokensShape(tokenize: string -> seq<string>, text: string, sentences: seq<Span>,
                                           i: nat, acc: seq<seq<string>>)
    requires i <= |sentences|
    requires forall j :: 0 <= j < |acc| ==> |acc[j]| > 0
    ensures SentTokensFrom(tokenize, text, sentences, i, acc).Some?
            <==> forall j :: i <= j < |sentences| ==> PyAt(text, sentences[j].end - 1).Some?
    ensures SentTokensFrom(tokenize, text, sentences, i, acc).Some? ==>
              var st := SentTokensFrom(tokenize, text, sentences, i, acc).value;
              && |acc| <= |st|
              && |st| + DroppedFrom(tokenize, text, sentences, i) == |acc| + |sentences| - i
              && st[..|acc|] == acc
              && forall j :: 0 <= j < |st| ==> |st[j]| > 0
    decreases |sentences| - i
  {
    if i < |sentences| {
      match SentenceTokens(tokenize, text, sentences[i])
      case None =>
      case Some(t) =>
        var acc' := if |t| > 0 then acc + [t] else acc;
        SentTokensShape(tokenize, text, sentences, i + 1, acc');
        if SentTokensFrom(tokenize, text, sentences, i + 1, acc').Some? {
          var st := SentTokensFrom(tokenize, text, sentences, i + 1, acc').value;
          assert st[..|acc'|][..|acc|] == st[..|acc|];
        }
    }
  }

  /** One turn of the sentence loop, when the loop does not raise. */
  lemma SentTokensStep(tokenize: string -> seq<string>, text: string, sentences: seq<Span>,
                       i: nat, acc: seq<seq<string>>) returns (t: seq<string>, acc': seq<seq<string>>)
    requires i < |sentences|
    requires SentTokensFrom(tokenize, text, sentences, i, acc).Some?
    ensures SentenceTokens(tokenize, text, sentences[i]) == Some(t)
    ensures acc' == if |t| > 0 then acc + [t] else acc
    ensures SentTokensFrom(tokenize, text, sentences, i, acc) == SentTokensFrom(tokenize, text, sentences, i + 1, acc')
  {
    t := SentenceTokens(tokenize, text, sentences[i]).value;
    acc' := if |t| > 0 then acc + [t] else acc;
  }

  lemma DroppedStep(tokenize: string -> seq<string>, text: string, sentences: seq<Span>, i: nat, t: seq<string>)
    requires i < |sentences| && SentenceTokens(tokenize, text, sentences[i]) == Some(t)
    ensures DroppedFrom(tokenize, text, sentences, i)
            == DroppedFrom(tokenize, text, sentences, i + 1) + (if |t| == 0 then 1 else 0)
  {
  }

  lemma PrefixOfPrefix(st: seq<seq<string>>, acc: seq<seq<string>>, acc': seq<seq<string>>)
    requires |acc| <= |acc'| <= |st| && st[..|acc'|] == acc' && acc'[..|acc|] == acc
    ensures st[..|acc|] == acc
  {
    assert st[..|acc'|][..|acc|] == st[..|acc|];
  }

  /** The loop only appends to the lists it already holds. */
  lemma {:induction false} SentTokensPrefix(tokenize: string -> seq<string>, text: string, sentences: seq<Span>,
                                            i: nat, acc: seq<seq<string>>)
    requires i <= |sentences|
    requires SentTokensFrom(tokenize, text, sentences, i, acc).Some?
    ensures var st := SentTokensFrom(tokenize, text, sentences, i, acc).value;
            |acc| <= |st| && st[..|acc|] == acc
    decreases |sentences| - i
  {
    if i < |sentences| {
      var t, acc' := SentTokensStep(tokenize, text, sentences, i, acc);
      SentTokensPrefix(tokenize, text, sentences, i + 1, acc');
      assert acc'[..|acc|] == acc;
      PrefixOfPrefix(SentTokensFrom(tokenize, text, sentences, i + 1, acc').value, acc, acc');
    }
  }

  /** The lists the loop keeps are the sentences' own lists, in sentence
      order: the list of sentence j sits after the lists kept before it,
      that is after j - i sentences less those of them dropped as empty. */
  lemma SentTokensContents(tokenize: string -> seq<string>, text: string, sentences: seq<Span>,
                           i: nat, acc: seq<seq<string>>)
    requires i <= |sentences|
    requires SentTokensFrom(tokenize, text, sentences, i, acc).Some?
    ensures var st := SentTokensFrom(tokenize, text, sentences, i, acc).value;
            forall j :: i <= j < |sentences| && SentenceTokens(tokenize, text, sentences[j]).Some?
                        && |SentenceTokens(tokenize, text, sentences[j]).value| > 0 ==>
              var k := |acc| + (j - i) - (DroppedFrom(tokenize, text, sentences, i) - DroppedFrom(tokenize, text, sentences, j));
              0 <= k < |st| && st[k] == SentenceTokens(tokenize, text, sentences[j]).value
  {
    forall j | i <= j < |sentences| && SentenceTokens(tokenize, text, sentences[j]).Some?
               && |SentenceTokens(tokenize, text, sentences[j]).value| > 0
      ensures var k := |acc| + (j - i) - (DroppedFrom(tokenize, text, sentences, i) - DroppedFrom(tokenize, text, sentences, j));
              0 <= k < |SentTokensFrom(tokenize, text, sentences, i, acc).value|
              && SentTokensFrom(tokenize, text, sentences, i, acc).value[k] == SentenceTokens(tokenize, text, sentences[j]).value
    {
      SentTokensAt(tokenize, text, sentences, i, acc, SentTokensFrom(tokenize, text, sentences, i, acc).value, j);
    }
  }

  /** SentTokensContents for one sentence j. */
  lemma {:induction false} SentTokensAt(tokenize: string -> seq<string>, text: string, sentences: seq<Span>,
                                        i: nat, acc: seq<seq<string>>, st: seq<seq<string>>, j: nat)
    requires i <= j < |sentences|
    requires SentTokensFrom(tokenize, text, sentences, i, acc) == Some(st)
    requires SentenceTokens(tokenize, text, sentences[j]).Some? && |SentenceTokens(tokenize, text, sentences[j]).value| > 0
    ensures var k := |acc| + (j - i) - (DroppedFrom(tokenize, text, sentences, i) - DroppedFrom(tokenize, text, sentences, j));
            0 <= k < |st| && st[k] == SentenceTokens(tokenize, text, sentences[j]).value
    decreases j - i
  {
    var t, acc' := SentTokensStep(tokenize, text, sentences, i, acc);
    if j == i {
      SentTokensPrefix(tokenize, text, sentences, i + 1, acc');
      LastOfPrefix(st, acc, t);
    } else {
      SentTokensAt(tokenize, text, sentences, i + 1, acc', st, j);
      DroppedStep(tokenize, text, sentences, i, t);
    }
  }

  lemma LastOfPrefix(st: seq<seq<string>>, acc: seq<seq<string>>, t: seq<string>)
    requires |acc| + 1 <= |st| && st[..|acc| + 1] == acc + [t]
    ensures st[|acc|] == t
  {
    assert st[|acc|] == st[..|acc| + 1][|acc|];
  }

  // ---------------------------------------------------------------------
  // One row (lines 43-152)

  /** The note as the assembly sees it once the service has answered. */
  function DocOf(lib: Libraries, row: Row, sentences: seq<Span>, st: seq<seq<string>>, ann: Annotations): Doc
  {
    Doc(row.rowId, Strip(row.text), sentences, st, ann, lib.align)
  }

  /** What one row leads to, given the names already in the output
      directory. Every exception inside the `try` becomes `Raised`: the row
      gets no file and the loop goes on with the next row. */
  function RowOutcomeOf(lib: Libraries, row: Row, existing: set<string>): RowOutcome
  {
    if |Strip(row.text)| == 0 then Skipped(EmptyText)
    else if OutputName(row.rowId) in existing then Skipped(AlreadyWritten)
    else Attempt(lib, row)
  }

  /** The part of a row's processing after the resume check: segmenting,
      tokenizing, the service call and the assembly. */
  function Attempt(lib: Libraries, row: Row): RowOutcome
  {
    var text := Strip(row.text);
    match lib.segment(text)
    case None => Skipped(Raised)
    case Some(sentences) =>
      if |sentences| == 0 then Skipped(NoSentences)
      else
        match SentTokensFrom(lib.tokenize, text, sentences, 0, [])
        case None => Skipped(Raised)
        case Some(st) =>
          if |st| == 0 then Skipped(NoTokenizedSentences)
          else
            var resp := lib.post(st, Metadata(row.rowId));
            if resp.status != 200 || resp.body.None? then Skipped(Raised)
            else
              match Assemble(DocOf(lib, row, sentences, st, resp.body.value))
              case None => Skipped(Raised)
              case Some(info) => Written(info)
  }

  method ProcessRow(lib: Libraries, row: Row, existing: set<string>) returns (outcome: RowOutcome)
    ensures outcome == RowOutcomeOf(lib, row, existing)
  {
    var text := Strip(row.text);
    if |text| == 0 {
      return Skipped(EmptyText);
    }
    if OutputName(row.rowId) in existing {
      return Skipped(AlreadyWritten);
    }
    var segmented := lib.segment(text);
    if segmented.None? {
      return Skipped(Raised);
    }
    var sentences := segmented.value;
    if |sentences| == 0 {
      return Skipped(NoSentences);
    }
    var sentTokens := PrepareSentTokens(lib.tokenize, text, sentences);
    if sentTokens.None? {
      return Skipped(Raised);
    }
    if |sentTokens.value| == 0 {
      return Skipped(NoTokenizedSentences);
    }
    var r := lib.post(sentTokens.value, Metadata(row.rowId));
    if r.status != 200 || r.body.None? {
      return Skipped(Raised);
    }
    var info := AssembleDoc(DocOf(lib, row, sentences, sentTokens.value, r.body.value));
    if info.None? {
      return Skipped(Raised);
    }
    outcome := Written(info.value);
  }

  /** A note that is blank once stripped is skipped before anything else is
      looked at. */
  lemma BlankRowSkipped(lib: Libraries, row: Row, existing: set<string>)
    requires AllSpace(row.text)
    ensures RowOutcomeOf(lib, row, existing) == Skipped(EmptyText)
  {
    StripBlank(row.text);
  }

  /** A note whose file is already there is skipped without segmenting it or
      calling the service (resume). */
  lemma ResumedRowSkipped(lib: Libraries, row: Row, existing: set<string>)
    requires !AllSpace(row.text) && OutputName(row.rowId) in existing
    ensures RowOutcomeOf(lib, row, existing) == Skipped(AlreadyWritten)
  {
    StripBlank(row.text);
  }

  /** A segmenter that raises on a note that is not blank and not yet
      written makes the row be skipped, with no file and no service call. */
  lemma SegmenterRaisesSkips(lib: Libraries, row: Row, existing: set<string>)
    requires !AllSpace(row.text) && OutputName(row.rowId) !in existing
    requires lib.segment(Strip(row.text)).None?
    ensures RowOutcomeOf(lib, row, existing) == Skipped(Raised)
  {
    StripBlank(row.text);
  }

  /** A service that never answers 200 yields no output for any row. */
  lemma FailingServiceWritesNothing(lib: Libraries, row: Row, existing: set<string>)
    requires forall st, meta :: lib.post(st, meta).status != 200
    ensures !RowOutcomeOf(lib, row, existing).Written?
  {
  }

  /** The inputs of the assembly that produced a written row. */
  lemma AttemptWritten(lib: Libraries, row: Row, info: TemporalInfo)
    returns (sentences: seq<Span>, st: seq<seq<string>>, ann: Annotations)
    requires Attempt(lib, row) == Written(info)
    ensures lib.segment(Strip(row.text)) == Some(sentences)
    ensures SentTokensFrom(lib.tokenize, Strip(row.text), sentences, 0, []) == Some(st)
    ensures lib.post(st, Metadata(row.rowId)) == Response(200, Some(ann))
    ensures Assemble(DocOf(lib, row, sentences, st, ann)) == Some(info)
  {
    sentences := lib.segment(Strip(row.text)).value;
    st := SentTokensFrom(lib.tokenize, Strip(row.text), sentences, 0, []).value;
    ann := lib.post(st, Metadata(row.rowId)).body.value;
  }

  lemma WrittenRowGuards(lib: Libraries, row: Row, existing: set<string>, info: TemporalInfo)
    requires RowOutcomeOf(lib, row, existing) == Written(info)
    ensures !AllSpace(row.text) && OutputName(row.rowId) !in existing
    ensures Attempt(lib, row) == Written(info)
  {
    StripBlank(row.text);
  }

  /** What is written for a row: its note is not blank, its file did not
      exist, and the `temporal_info` is the complete assembly of the service's
      answer, in which no relation points at a missing identifier. */
  lemma WrittenRow(lib: Libraries, row: Row, existing: set<string>, info: TemporalInfo)
    returns (sentences: seq<Span>, st: seq<seq<string>>, ann: Annotations)
    requires RowOutcomeOf(lib, row, existing) == Written(info)
    ensures !AllSpace(row.text) && OutputName(row.rowId) !in existing
    ensures Attempt(lib, row) == Written(info)
    ensures lib.segment(Strip(row.text)) == Some(sentences)
    ensures SentTokensFrom(lib.tokenize, Strip(row.text), sentences, 0, []) == Some(st)
    ensures lib.post(st, Metadata(row.rowId)) == Response(200, Some(ann))
    ensures Complete(DocOf(lib, row, sentences, st, ann), info)
    ensures NoDangling(info)
  {
    WrittenRowGuards(lib, row, existing, info);
    sentences, st, ann := AttemptWritten(lib, row, info);
    AssembleComplete(DocOf(lib, row, sentences, st, ann), info);
  }

  /** A sentence that tokenizes to nothing is left out of the token lists
      but not out of the sentence loop, so indexing those lists by sentence
      number (`sent_tokens[sentence_ind]`) raises at the last sentence.
      Whatever the service answers, such a row is never written. */
  lemma EmptySentenceDropsRow(lib: Libraries, row: Row, existing: set<string>)
    requires var text := Strip(row.text);
             lib.segment(text).Some? ==> DroppedFrom(lib.tokenize, text, lib.segment(text).value, 0) > 0
    ensures !RowOutcomeOf(lib, row, existing).Written?
  {
    if RowOutcomeOf(lib, row, existing).Written? {
      var info := RowOutcomeOf(lib, row, existing).info;
      assert Attempt(lib, row) == Written(info);
      var sentences, st, ann := AttemptWritten(lib, row, info);
      SentTokensShape(lib.tokenize, Strip(row.text), sentences, 0, []);
      assert |st| < |sentences|;
      ShortAnswerDropsNote(DocOf(lib, row, sentences, st, ann));
      assert false;
    }
  }

  // ---------------------------------------------------------------------
  // The run (lines 40-152)

  /** How a row is handled given the names in the output directory. */
  type RowStep = (Row, set<string>) -> RowOutcome

  /** The script's row handling as a step. */
  function StepOf(lib: Libraries): RowStep
  {
    (row: Row, existing: set<string>) => RowOutcomeOf(lib, row, existing)
  }

  /** A row whose file exists is never written again. */
  ghost predicate KeepsOwnFile(step: RowStep)
  {
    forall row: Row, existing: set<string> :: OutputName(row.rowId) in existing ==> !step(row, existing).Written?
  }

  /** The directory matters to a row only through its own file. */
  ghost predicate LooksOnlyAtOwnFile(step: RowStep)
  {
    forall row: Row, e1: set<string>, e2: set<string> ::
      OutputName(row.rowId) !in e1 && OutputName(row.rowId) !in e2 ==> step(row, e1) == step(row, e2)
  }

  /** The script's row handling has both properties the run relies on. */
  lemma StepOfResumes(lib: Libraries)
    ensures KeepsOwnFile(StepOf(lib)) && LooksOnlyAtOwnFile(StepOf(lib))
  {
    forall row: Row, existing: set<string> | OutputName(row.rowId) in existing
      ensures !StepOf(lib)(row, existing).Written?
    {
      if !AllSpace(row.text) {
        ResumedRowSkipped(lib, row, existing);
      } else {
        BlankRowSkipped(lib, row, existing);
      }
    }
  }

  /** The output directory after rows i.. have been handled by step,
      starting from files. A written row's file is visible to the rows after
      it; with a positive doc limit the loop stops after writing a row whose
      index is at least the limit. */
  function RunFrom(step: RowStep, rows: seq<Row>, docLimit: int, i: nat, files: map<string, TemporalInfo>)
    : map<string, TemporalInfo>
    requires i <= |rows|
    decreases |rows| - i
  {
    if i == |rows| then files
    else
      match step(rows[i], files.Keys)
      case Skipped(_) => RunFrom(step, rows, docLimit, i + 1, files)
      case Written(info) =>
        var written := files[OutputName(rows[i].rowId) := info];
        if docLimit > 0 && i >= docLimit then written else RunFrom(step, rows, docLimit, i + 1, written)
  }

  /** The `for doc_num, row in enumerate(csvreader)` loop over an output
      directory that already holds outDir. The script sets doc_limit to -10,
      which never stops the loop early. */
  method Run(lib: Libraries, rows: seq<Row>, docLimit: int, outDir: map<string, TemporalInfo>)
    returns (files: map<string, TemporalInfo>)
    ensures files == RunFrom(StepOf(lib), rows, docLimit, 0, outDir)
  {
    files := outDir;
    var docNum := 0;
    while docNum < |rows|
      invariant docNum <= |rows|
      invariant RunFrom(StepOf(lib), rows, docLimit, docNum, files) == RunFrom(StepOf(lib), rows, docLimit, 0, outDir)
    {
      var outcome := ProcessRow(lib, rows[docNum], files.Keys);
      RunFromStep(StepOf(lib), rows, docLimit, docNum, files, outcome);
      if outcome.Written? {
        files := files[OutputName(rows[docNum].rowId) := outcome.info];
        if docLimit > 0 && docNum >= docLimit {
          return;
        }
      }
      docNum := docNum + 1;
    }
  }

  /** One pass of the loop, for any step. */
  lemma RunFromStep(step: RowStep, rows: seq<Row>, docLimit: int, i: nat, files: map<string, TemporalInfo>,
                    outcome: RowOutcome)
    requires i < |rows| && outcome == step(rows[i], files.Keys)
    ensures outcome.Skipped? ==> RunFrom(step, rows, docLimit, i, files) == RunFrom(step, rows, docLimit, i + 1, files)
    ensures outcome.Written? ==>
              var written := files[OutputName(rows[i].rowId) := outcome.info];
              RunFrom(step, rows, docLimit, i, files)
              == if docLimit > 0 && i >= docLimit then written else RunFrom(step, rows, docLimit, i + 1, written)
  {
  }

  /** A file that is present is never rewritten: it is still there, with
      the same content, after the run. Rows whose ROW_ID repeats are thus
      written at most once. */
  lemma {:induction false} RunKeepsFiles(step: RowStep, rows: seq<Row>, docLimit: int, i: nat,
                                         files: map<string, TemporalInfo>)
    requires KeepsOwnFile(step) && i <= |rows|
    ensures var out := RunFrom(step, rows, docLimit, i, files);
            forall name :: name in files ==> name in out && out[name] == files[name]
    decreases |rows| - i
  {
    if i < |rows| {
      match step(rows[i], files.Keys)
      case Skipped(_) => RunKeepsFiles(step, rows, docLimit, i + 1, files);
      case Written(info) =>
        var written := files[OutputName(rows[i].rowId) := info];
        if !(docLimit > 0 && i >= docLimit) {
          RunKeepsFiles(step, rows, docLimit, i + 1, written);
        }
    }
  }

  /** Every file the run adds is named after the ROW_ID of one of its rows. */
  lemma {:induction false} RunNamesFiles(step: RowStep, rows: seq<Row>, docLimit: int, i: nat,
                                         files: map<string, TemporalInfo>)
    requires i <= |rows|
    ensures var out := RunFrom(step, rows, docLimit, i, files);
            forall name :: name in out ==> name in files || exists j :: i <= j < |rows| && name == OutputName(rows[j].rowId)
    decreases |rows| - i
  {
    if i < |rows| {
      match step(rows[i], files.Keys)
      case Skipped(_) => RunNamesFiles(step, rows, docLimit, i + 1, files);
      case Written(info) =>
        var written := files[OutputName(rows[i].rowId) := info];
        if !(docLimit > 0 && i >= docLimit) {
          RunNamesFiles(step, rows, docLimit, i + 1, written);
        }
    }
  }

  /** A row that was not written into files is not written into a
      directory that holds every file of files either. */
  lemma StaysUnwritten(step: RowStep, row: Row, files: map<string, TemporalInfo>, out: map<string, TemporalInfo>)
    requires KeepsOwnFile(step) && LooksOnlyAtOwnFile(step)
    requires !step(row, files.Keys).Written?
    requires forall name :: name in files ==> name in out
    ensures !step(row, out.Keys).Written?
  {
    var name := OutputName(row.rowId);
    if name in out.Keys {
    } else {
      assert name !in files.Keys;
      assert step(row, files.Keys) == step(row, out.Keys);
    }
  }

  /** After a run without an early stop, row j >= i would not be written
      into the final directory: either its file is there, or it was not
      written when the directory held less. */
  lemma {:induction false} FinalDirectorySkipsAll(step: RowStep, rows: seq<Row>, docLimit: int, i: nat,
                                                  files: map<string, TemporalInfo>, j: nat)
    requires KeepsOwnFile(step) && LooksOnlyAtOwnFile(step)
    requires docLimit <= 0 && i <= j < |rows|
    ensures !step(rows[j], RunFrom(step, rows, docLimit, i, files).Keys).Written?
    decreases j - i
  {
    var out := RunFrom(step, rows, docLimit, i, files);
    var outcome := step(rows[i], files.Keys);
    RunFromStep(step, rows, docLimit, i, files, outcome);
    if outcome.Skipped? {
      if i < j {
        FinalDirectorySkipsAll(step, rows, docLimit, i + 1, files, j);
      } else {
        RunKeepsFiles(step, rows, docLimit, i + 1, files);
        StaysUnwritten(step, rows[i], files, out);
      }
    } else {
      var written := files[OutputName(rows[i].rowId) := outcome.info];
      if i < j {
        FinalDirectorySkipsAll(step, rows, docLimit, i + 1, written, j);
      } else {
        RunKeepsFiles(step, rows, docLimit, i + 1, written);
        assert OutputName(rows[i].rowId) in out.Keys;
      }
    }
  }

  /** A directory in which no row from i on would be written is left as it
      is. */
  lemma {:induction false} RunNoWrites(step: RowStep, rows: seq<Row>, docLimit: int, i: nat,
                                       files: map<string, TemporalInfo>)
    requires i <= |rows|
    requires forall j :: i <= j < |rows| ==> !step(rows[j], files.Keys).Written?
    ensures RunFrom(step, rows, docLimit, i, files) == files
    decreases |rows| - i
  {
    if i < |rows| {
      RunNoWrites(step, rows, docLimit, i + 1, files);
    }
  }

  /** Resuming is idempotent: running the script again over the same rows and
      the directory a run produced changes nothing, since every row either
      finds its file or fails the same way again. */
  lemma ResumeIdempotent(lib: Libraries, rows: seq<Row>, docLimit: int, outDir: map<string, TemporalInfo>)
    requires docLimit <= 0
    ensures var once := RunFrom(StepOf(lib), rows, docLimit, 0, outDir);
            RunFrom(StepOf(lib), rows, docLimit, 0, once) == once
  {
    var step := StepOf(lib);
    StepOfResumes(lib);
    var once := RunFrom(step, rows, docLimit, 0, outDir);
    forall j | 0 <= j < |rows| ensures !step(rows[j], once.Keys).Written? {
      FinalDirectorySkipsAll(step, rows, docLimit, 0, outDir, j);
    }
    RunNoWrites(step, rows, docLimit, 0, once);
  }

  /** The script's run never overwrites a file that was there before it,
      and only adds files named after its rows. */
  lemma RunNeverOverwrites(lib: Libraries, rows: seq<Row>, docLimit: int, outDir: map<string, TemporalInfo>)
    ensures var out := RunFrom(StepOf(lib), rows, docLimit, 0, outDir);
            && (forall name :: name in outDir ==> name in out && out[name] == outDir[name])
            && (forall name :: name in out ==> name in outDir || exists j :: 0 <= j < |rows| && name == OutputName(rows[j].rowId))
  {
    StepOfResumes(lib);
    RunKeepsFiles(StepOf(lib), rows, docLimit, 0, outDir);
    RunNamesFiles(StepOf(lib), rows, docLimit, 0, outDir);
  }
}
