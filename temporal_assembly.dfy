/** Turning the temporal service's token-indexed answer for one note into
    document-level records: time expressions and events keyed by generated
    identifiers, with absolute character offsets and text re-sliced from the
    note, and relations whose `EVENT-i` / `TIMEX-i` arguments are resolved to
    those identifiers (extract_mimic_temporal.py, lines 80-138). */
module TemporalAssembly {
  import opened Builtins
  import opened TemporalIds

  /** A character span `[begin, end)`: a sentence from the segmenter
      (relative to the note) or a token's `(start, end)` from the aligner
      (relative to its sentence). */
  datatype Span = Span(begin: nat, end: nat)

  /** A time expression or event as the service reports it: indices of its
      first and last token in the sentence, and its `timeClass` (time
      expressions) or `dtr` (events) value. */
  datatype Item = Item(begin: int, end: int, attr: string)

  /** A relation as the service reports it; a null argument is None. */
  datatype RelItem = RelItem(arg1: Option<string>, arg2: Option<string>, category: string)

  /** The parsed response body: one list per submitted sentence for each key. */
  datatype Annotations = Annotations(events: seq<seq<Item>>, timexes: seq<seq<Item>>, relations: seq<seq<RelItem>>)

  /** An output record of `timexes` or `events`; `attr` is the `timeClass`
      or `dtr` copied from the service. */
  datatype Mention = Mention(rowId: int, sentIndex: nat, begin: nat, end: nat, text: string, attr: string)

  datatype Relation = Relation(rowId: int, sentIndex: nat, arg1: string, arg2: string, category: string)

  /** The `temporal_info` object written for a note. */
  datatype TemporalInfo = TemporalInfo(timexes: map<string, Mention>, events: map<string, Mention>, relations: seq<Relation>)

  const EmptyInfo := TemporalInfo(map[], map[], [])

  /** `align_tokens(tokens, sentence_text)`: one span per token on success,
      None when it raises. */
  type Aligner = (seq<string>, string) -> Option<seq<Span>>

  /** Everything the assembly reads for one note: the stripped text, the
      segmenter's sentences, the token lists sent to the service (after empty
      ones were dropped), the service's answer and the aligner. */
  datatype Doc = Doc(rowId: int, text: string, sentences: seq<Span>, sentTokens: seq<seq<string>>,
                     ann: Annotations, align: Aligner)

  /** `text[sentence.begin:sentence.end]` */
  function SentenceText(doc: Doc, s: nat): string
    requires s < |doc.sentences|
  {
    Slice(doc.text, doc.sentences[s].begin, doc.sentences[s].end)
  }

  /** What sentence s reads before its loops. */
  datatype SentenceInput = SentenceInput(events: seq<Item>, timexes: seq<Item>, rels: seq<RelItem>, spans: seq<Span>)

  function Items(kind: Kind, si: SentenceInput): seq<Item>
  {
    if kind == Timex then si.timexes else si.events
  }

  /** `json_out['events'][s]`, `json_out['timexes'][s]`,
      `json_out['relations'][s]` and `align_tokens(sent_tokens[s], sent_txt)`;
      None stands for the IndexError of a list shorter than s + 1 (s is never
      negative) or for the aligner raising. */
  function SentenceInputAt(doc: Doc, s: nat): Option<SentenceInput>
    requires s < |doc.sentences|
  {
    if s < |doc.ann.events| && s < |doc.ann.timexes| && s < |doc.ann.relations| && s < |doc.sentTokens| then
      match doc.align(doc.sentTokens[s], SentenceText(doc, s))
      case None => None
      case Some(spans) => Some(SentenceInput(doc.ann.events[s], doc.ann.timexes[s], doc.ann.relations[s], spans))
    else None
  }

  /** The record for one item of sentence s: its begin is the start of the
      token at index `item.begin` plus the sentence's begin, its end is the
      end of the token at index `item.end` plus the sentence's begin (so the
      end token is included), and its text is re-sliced from the note. None
      stands for the IndexError of a token index outside the span list. */
  function MentionOf(doc: Doc, s: nat, spans: seq<Span>, item: Item): Option<Mention>
    requires s < |doc.sentences|
  {
    match (PyAt(spans, item.begin), PyAt(spans, item.end))
    case (Some(first), Some(last)) =>
      var begin := first.begin + doc.sentences[s].begin;
      var end := last.end + doc.sentences[s].begin;
      Some(Mention(doc.rowId, s, begin, end, Slice(doc.text, begin, end), item.attr))
    case _ => None
  }

  /** One of the two mention loops of sentence s from item k on: the record
      of item j is stored under the identifier with ordinal j. */
  function AddMentionsFrom(kind: Kind, doc: Doc, s: nat, spans: seq<Span>, items: seq<Item>, k: nat,
                           m: map<string, Mention>): Option<map<string, Mention>>
    requires s < |doc.sentences| && k <= |items|
    decreases |items| - k
  {
    if k == |items| then Some(m)
    else
      match MentionOf(doc, s, spans, items[k])
      case None => None
      case Some(r) => AddMentionsFrom(kind, doc, s, spans, items, k + 1, m[MentionId(kind, doc.rowId, s, k) := r])
  }

  /** The relation loop of sentence s from relation k on: a relation with a
      null argument is skipped, any other is appended with both arguments
      resolved, and an unresolvable argument raises. */
  function AddRelationsFrom(doc: Doc, s: nat, rels: seq<RelItem>, timexIds: seq<string>, eventIds: seq<string>,
                            k: nat, acc: seq<Relation>): Option<seq<Relation>>
    requires k <= |rels|
    decreases |rels| - k
  {
    if k == |rels| then Some(acc)
    else
      var rel := rels[k];
      if rel.arg1.None? || rel.arg2.None? then AddRelationsFrom(doc, s, rels, timexIds, eventIds, k + 1, acc)
      else
        match (ResolveArg(rel.arg1.value, timexIds, eventIds), ResolveArg(rel.arg2.value, timexIds, eventIds))
        case (Some(a1), Some(a2)) =>
          AddRelationsFrom(doc, s, rels, timexIds, eventIds, k + 1, acc + [Relation(doc.rowId, s, a1, a2, rel.category)])
        case _ => None
  }

  /** One pass of the sentence loop: time expressions, then events, then
      relations, added to what earlier sentences produced. */
  function SentenceStep(doc: Doc, s: nat, info: TemporalInfo): Option<TemporalInfo>
    requires s < |doc.sentences|
  {
    match SentenceInputAt(doc, s)
    case None => None
    case Some(si) =>
      match AddMentionsFrom(Timex, doc, s, si.spans, si.timexes, 0, info.timexes)
      case None => None
      case Some(tm) =>
        match AddMentionsFrom(Event, doc, s, si.spans, si.events, 0, info.events)
        case None => None
        case Some(em) =>
          match AddRelationsFrom(doc, s, si.rels, MentionIds(Timex, doc.rowId, s, |si.timexes|),
                                 MentionIds(Event, doc.rowId, s, |si.events|), 0, info.relations)
          case None => None
          case Some(rs) => Some(TemporalInfo(tm, em, rs))
  }

  function AssembleFrom(doc: Doc, s: nat, info: TemporalInfo): Option<TemporalInfo>
    requires s <= |doc.sentences|
    decreases |doc.sentences| - s
  {
    if s == |doc.sentences| then Some(info)
    else
      match SentenceStep(doc, s, info)
      case None => None
      case Some(next) => AssembleFrom(doc, s + 1, next)
  }

  /** The note's `temporal_info`, or None when any step raises (the source
      then writes nothing for the row). */
  function Assemble(doc: Doc): Option<TemporalInfo>
  {
    AssembleFrom(doc, 0, EmptyInfo)
  }

  /** The loop over one sentence's time expressions or events: appends each
      identifier to `ids` and stores the record under it. */
  method CollectMentions(kind: Kind, doc: Doc, s: nat, spans: seq<Span>, items: seq<Item>, m0: map<string, Mention>)
    returns (r: Option<map<string, Mention>>, ids: seq<string>)
    requires s < |doc.sentences|
    ensures r == AddMentionsFrom(kind, doc, s, spans, items, 0, m0)
    ensures r.Some? ==> ids == MentionIds(kind, doc.rowId, s, |items|)
  {
    var m := m0;
    ids := [];
    var j := 0;
    while j < |items|
      invariant j <= |items|
      invariant AddMentionsFrom(kind, doc, s, spans, items, j, m) == AddMentionsFrom(kind, doc, s, spans, items, 0, m0)
      invariant ids == MentionIds(kind, doc.rowId, s, j)
    {
      var record := MentionOf(doc, s, spans, items[j]);
      if record.None? {
        assert AddMentionsFrom(kind, doc, s, spans, items, j, m) == None;
        return None, ids;
      }
      var id := MentionId(kind, doc.rowId, s, |ids|);
      assert |ids| == j;
      assert AddMentionsFrom(kind, doc, s, spans, items, j, m)
             == AddMentionsFrom(kind, doc, s, spans, items, j + 1, m[id := record.value]);
      assert ids + [id] == MentionIds(kind, doc.rowId, s, j + 1);
      ids := ids + [id];
      m := m[id := record.value];
      j := j + 1;
    }
    r := Some(m);
  }

  /** The loop over one sentence's relations. */
  method CollectRelations(doc: Doc, s: nat, rels: seq<RelItem>, timexIds: seq<string>, eventIds: seq<string>,
                          acc0: seq<Relation>) returns (r: Option<seq<Relation>>)
    ensures r == AddRelationsFrom(doc, s, rels, timexIds, eventIds, 0, acc0)
  {
    var relations := acc0;
    var k := 0;
    while k < |rels|
      invariant k <= |rels|
      invariant AddRelationsFrom(doc, s, rels, timexIds, eventIds, k, relations)
                == AddRelationsFrom(doc, s, rels, timexIds, eventIds, 0, acc0)
    {
      var rel := rels[k];
      if rel.arg1.Some? && rel.arg2.Some? {
        var arg1 := ResolveArg(rel.arg1.value, timexIds, eventIds);
        var arg2 := ResolveArg(rel.arg2.value, timexIds, eventIds);
        if arg1.None? || arg2.None? {
          return None;
        }
        relations := relations + [Relation(doc.rowId, s, arg1.value, arg2.value, rel.category)];
      }
      k := k + 1;
    }
    r := Some(relations);
  }

  /** The sentence loop of lines 83-135: fills `timexes` and `events` and
      appends to `relations`, giving up on the note at the first error. */
  method AssembleDoc(doc: Doc) returns (r: Option<TemporalInfo>)
    ensures r == Assemble(doc)
  {
    var timexes: map<string, Mention> := map[];
    var events: map<string, Mention> := map[];
    var relations: seq<Relation> := [];
    var s := 0;
    while s < |doc.sentences|
      invariant s <= |doc.sentences|
      invariant AssembleFrom(doc, s, TemporalInfo(timexes, events, relations)) == Assemble(doc)
    {
      if s >= |doc.ann.events| || s >= |doc.ann.timexes| || s >= |doc.ann.relations| || s >= |doc.sentTokens| {
        return None;
      }
      var sentEvents, sentTimexes, sentRels := doc.ann.events[s], doc.ann.timexes[s], doc.ann.relations[s];
      var tokenSpans := doc.align(doc.sentTokens[s], SentenceText(doc, s));
      if tokenSpans.None? {
        return None;
      }
      var tm, timexIds := CollectMentions(Timex, doc, s, tokenSpans.value, sentTimexes, timexes);
      if tm.None? {
        return None;
      }
      var em, eventIds := CollectMentions(Event, doc, s, tokenSpans.value, sentEvents, events);
      if em.None? {
        return None;
      }
      var rs := CollectRelations(doc, s, sentRels, timexIds, eventIds, relations);
      if rs.None? {
        return None;
      }
      timexes, events, relations := tm.value, em.value, rs.value;
      s := s + 1;
    }
    r := Some(TemporalInfo(timexes, events, relations));
  }
}
