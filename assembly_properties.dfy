/** What the assembled `temporal_info` of a note is guaranteed to be: which
    inputs make the note fail, where every record sits and what it holds,
    that no identifier is used twice, and that every retained relation
    points at a recorded time expression or event. */
module AssemblyProperties {
  import opened Builtins
  import opened TemporalIds
  import opened TemporalAssembly

  // ---------------------------------------------------------------------
  // When the assembly raises

  /** Every item of a mention list has token indices inside the span list. */
  predicate MentionsOk(doc: Doc, s: nat, spans: seq<Span>, items: seq<Item>)
    requires s < |doc.sentences|
  {
    forall j :: 0 <= j < |items| ==> MentionOf(doc, s, spans, items[j]).Some?
  }

  /** A relation is harmless when it has a null argument (it is dropped) or
      when both arguments resolve. */
  predicate RelationOk(rel: RelItem, timexIds: seq<string>, eventIds: seq<string>)
  {
    rel.arg1.None? || rel.arg2.None?
    || (ResolveArg(rel.arg1.value, timexIds, eventIds).Some? && ResolveArg(rel.arg2.value, timexIds, eventIds).Some?)
  }

  predicate RelationsOk(rels: seq<RelItem>, timexIds: seq<string>, eventIds: seq<string>)
  {
    forall k :: 0 <= k < |rels| ==> RelationOk(rels[k], timexIds, eventIds)
  }

  /** Sentence s raises nothing: its lists and its alignment exist, every
      mention's token indices are in range and every relation is harmless. */
  predicate SentenceOk(doc: Doc, s: nat)
    requires s < |doc.sentences|
  {
    match SentenceInputAt(doc, s)
    case None => false
    case Some(si) =>
      MentionsOk(doc, s, si.spans, si.timexes) && MentionsOk(doc, s, si.spans, si.events)
      && RelationsOk(si.rels, MentionIds(Timex, doc.rowId, s, |si.timexes|), MentionIds(Event, doc.rowId, s, |si.events|))
  }

  lemma {:induction false} AddMentionsFromSome(kind: Kind, doc: Doc, s: nat, spans: seq<Span>, items: seq<Item>,
                                               k: nat, m: map<string, Mention>)
    requires s < |doc.sentences| && k <= |items|
    ensures AddMentionsFrom(kind, doc, s, spans, items, k, m).Some?
            <==> forall j :: k <= j < |items| ==> MentionOf(doc, s, spans, items[j]).Some?
    decreases |items| - k
  {
    if k < |items| {
      var first := MentionOf(doc, s, spans, items[k]);
      assert (forall j :: k <= j < |items| ==> MentionOf(doc, s, spans, items[j]).Some?)
             <==> first.Some? && forall j :: k + 1 <= j < |items| ==> MentionOf(doc, s, spans, items[j]).Some?;
      if first.None? {
        assert AddMentionsFrom(kind, doc, s, spans, items, k, m) == None;
      } else {
        var next := m[MentionId(kind, doc.rowId, s, k) := first.value];
        assert AddMentionsFrom(kind, doc, s, spans, items, k, m) == AddMentionsFrom(kind, doc, s, spans, items, k + 1, next);
        AddMentionsFromSome(kind, doc, s, spans, items, k + 1, next);
      }
    }
  }

  lemma {:induction false} AddRelationsFromSome(doc: Doc, s: nat, rels: seq<RelItem>, timexIds: seq<string>,
                                                eventIds: seq<string>, k: nat, acc: seq<Relation>)
    requires k <= |rels|
    ensures AddRelationsFrom(doc, s, rels, timexIds, eventIds, k, acc).Some?
            <==> forall j :: k <= j < |rels| ==> RelationOk(rels[j], timexIds, eventIds)
    decreases |rels| - k
  {
    if k < |rels| {
      var rel := rels[k];
      if rel.arg1.None? || rel.arg2.None? {
        AddRelationsFromSome(doc, s, rels, timexIds, eventIds, k + 1, acc);
      } else {
        match (ResolveArg(rel.arg1.value, timexIds, eventIds), ResolveArg(rel.arg2.value, timexIds, eventIds))
        case (Some(a1), Some(a2)) =>
          AddRelationsFromSome(doc, s, rels, timexIds, eventIds, k + 1, acc + [Relation(doc.rowId, s, a1, a2, rel.category)]);
        case _ =>
      }
    }
  }

  lemma SentenceStepSome(doc: Doc, s: nat, info: TemporalInfo)
    requires s < |doc.sentences|
    ensures SentenceStep(doc, s, info).Some? <==> SentenceOk(doc, s)
  {
    match SentenceInputAt(doc, s)
    case None =>
    case Some(si) =>
      AddMentionsFromSome(Timex, doc, s, si.spans, si.timexes, 0, info.timexes);
      AddMentionsFromSome(Event, doc, s, si.spans, si.events, 0, info.events);
      AddRelationsFromSome(doc, s, si.rels, MentionIds(Timex, doc.rowId, s, |si.timexes|),
                           MentionIds(Event, doc.rowId, s, |si.events|), 0, info.relations);
  }

  /** Sentences s.. all raise nothing, read one sentence at a time. */
  predicate OkFrom(doc: Doc, s: nat)
    requires s <= |doc.sentences|
    decreases |doc.sentences| - s
  {
    s == |doc.sentences| || (SentenceOk(doc, s) && OkFrom(doc, s + 1))
  }

  lemma {:induction false} OkFromAll(doc: Doc, s: nat)
    requires s <= |doc.sentences|
    ensures OkFrom(doc, s) <==> forall t :: s <= t < |doc.sentences| ==> SentenceOk(doc, t)
    decreases |doc.sentences| - s
  {
    if s < |doc.sentences| {
      OkFromAll(doc, s + 1);
    }
  }

  lemma {:induction false} AssembleFromSome(doc: Doc, s: nat, info: TemporalInfo)
    requires s <= |doc.sentences|
    ensures AssembleFrom(doc, s, info).Some? <==> OkFrom(doc, s)
    decreases |doc.sentences| - s
  {
    if s < |doc.sentences| {
      SentenceStepSome(doc, s, info);
      var step := SentenceStep(doc, s, info);
      if step.Some? {
        AssembleFromSome(doc, s + 1, step.value);
      }
    }
  }

  /** A note produces output exactly when no sentence raises; a single bad
      token index, missing list, failed alignment or unresolvable relation
      argument anywhere drops the whole note. */
  lemma AssembleSucceedsIff(doc: Doc)
    ensures Assemble(doc).Some? <==> forall s :: 0 <= s < |doc.sentences| ==> SentenceOk(doc, s)
  {
    AssembleFromSome(doc, 0, EmptyInfo);
    OkFromAll(doc, 0);
  }

  /** Sentences are looked up by their index among all sentences in the
      token lists and in each answer list. When any of them is shorter than
      the list of sentences (the token lists are, once a sentence tokenized
      to nothing), the lookup for the last sentence raises and the note
      produces no output. */
  lemma ShortAnswerDropsNote(doc: Doc)
    requires |doc.ann.events| < |doc.sentences| || |doc.ann.timexes| < |doc.sentences|
             || |doc.ann.relations| < |doc.sentences| || |doc.sentTokens| < |doc.sentences|
    ensures Assemble(doc) == None
  {
    AssembleSucceedsIff(doc);
    var s := |doc.sentences| - 1;
    assert SentenceInputAt(doc, s) == None;
    assert !SentenceOk(doc, s);
  }

  // ---------------------------------------------------------------------
  // Where each record sits and what it holds

  /** The number of items of that kind the service returned for sentence s. */
  function CountOf(kind: Kind, doc: Doc, s: nat): nat
  {
    var lists := if kind == Timex then doc.ann.timexes else doc.ann.events;
    if s < |lists| then |lists[s]| else 0
  }

  /** The number of items of that kind returned for the first n sentences. */
  function TotalOf(kind: Kind, doc: Doc, n: nat): nat
  {
    if n == 0 then 0 else TotalOf(kind, doc, n - 1) + CountOf(kind, doc, n - 1)
  }

  /** The record the j-th item of that kind in sentence s yields, computed
      from the inputs alone. */
  function MentionAt(kind: Kind, doc: Doc, s: nat, j: nat): Option<Mention>
    requires s < |doc.sentences|
  {
    match SentenceInputAt(doc, s)
    case None => None
    case Some(si) => if j < |Items(kind, si)| then MentionOf(doc, s, si.spans, Items(kind, si)[j]) else None
  }

  /** The identifier belongs to a sentence before s, or to one of the first
      k items of sentence s. */
  predicate IdBefore(kind: Kind, doc: Doc, id: string, s: nat, k: nat)
  {
    match DecodeId(kind, doc.rowId, id)
    case None => false
    case Some((t, j)) => (t < s && j < CountOf(kind, doc, t)) || (t == s && j < k)
  }

  /** Every item of the sentences before s has its record in m, under its
      identifier. */
  predicate CoveredBefore(kind: Kind, doc: Doc, s: nat, m: map<string, Mention>)
    requires s <= |doc.sentences|
  {
    forall t, j :: 0 <= t < s && 0 <= j < CountOf(kind, doc, t) ==>
      MentionId(kind, doc.rowId, t, j) in m && MentionAt(kind, doc, t, j) == Some(m[MentionId(kind, doc.rowId, t, j)])
  }

  /** The first k items of sentence s have their records in m. */
  predicate CoveredUpTo(kind: Kind, doc: Doc, s: nat, k: nat, m: map<string, Mention>)
    requires s < |doc.sentences|
  {
    forall j :: 0 <= j < k ==>
      MentionId(kind, doc.rowId, s, j) in m && MentionAt(kind, doc, s, j) == Some(m[MentionId(kind, doc.rowId, s, j)])
  }

  /** Every key of m is the identifier of such an item. */
  predicate KeysBefore(kind: Kind, doc: Doc, s: nat, k: nat, m: map<string, Mention>)
  {
    forall id :: id in m ==> IdBefore(kind, doc, id, s, k)
  }

  /** Under KeysBefore every key is, letter for letter, the identifier of an
      item of a sentence before s or of one of the first k items of s. */
  lemma KeyIsEarlierId(kind: Kind, doc: Doc, s: nat, k: nat, m: map<string, Mention>, id: string)
    requires KeysBefore(kind, doc, s, k, m) && id in m
    ensures exists t: nat, j: nat :: id == MentionId(kind, doc.rowId, t, j)
                                      && ((t < s && j < CountOf(kind, doc, t)) || (t == s && j < k))
  {
    assert IdBefore(kind, doc, id, s, k);
    var t, j := DecodeId(kind, doc.rowId, id).value.0, DecodeId(kind, doc.rowId, id).value.1;
    DecodeIdExact(kind, doc.rowId, id, t, j);
  }

  /** The records of sentences before s and of the first k items of
      sentence s, and nothing else, are in m, one entry per item. */
  predicate Filled(kind: Kind, doc: Doc, s: nat, k: nat, m: map<string, Mention>)
    requires s < |doc.sentences|
  {
    CoveredBefore(kind, doc, s, m) && CoveredUpTo(kind, doc, s, k, m) && KeysBefore(kind, doc, s, k, m)
    && |m| == TotalOf(kind, doc, s) + k
  }

  /** The whole-note form of Filled, once every sentence is done. */
  predicate FilledAll(kind: Kind, doc: Doc, m: map<string, Mention>)
  {
    CoveredBefore(kind, doc, |doc.sentences|, m) && KeysBefore(kind, doc, |doc.sentences|, 0, m)
    && |m| == TotalOf(kind, doc, |doc.sentences|)
  }

  lemma CoveredBeforeAdd(kind: Kind, doc: Doc, s: nat, m: map<string, Mention>, id: string, r: Mention)
    requires s <= |doc.sentences| && CoveredBefore(kind, doc, s, m) && id !in m
    ensures CoveredBefore(kind, doc, s, m[id := r])
  {
    forall t, j | 0 <= t < s && 0 <= j < CountOf(kind, doc, t)
      ensures MentionId(kind, doc.rowId, t, j) in m[id := r]
      ensures MentionAt(kind, doc, t, j) == Some(m[id := r][MentionId(kind, doc.rowId, t, j)])
    {
      assert MentionId(kind, doc.rowId, t, j) in m;
    }
  }

  lemma CoveredUpToAdd(kind: Kind, doc: Doc, s: nat, k: nat, m: map<string, Mention>, r: Mention)
    requires s < |doc.sentences| && CoveredUpTo(kind, doc, s, k, m)
    requires MentionId(kind, doc.rowId, s, k) !in m
    requires MentionAt(kind, doc, s, k) == Some(r)
    ensures CoveredUpTo(kind, doc, s, k + 1, m[MentionId(kind, doc.rowId, s, k) := r])
  {
    var id := MentionId(kind, doc.rowId, s, k);
    forall j | 0 <= j < k + 1
      ensures MentionId(kind, doc.rowId, s, j) in m[id := r]
      ensures MentionAt(kind, doc, s, j) == Some(m[id := r][MentionId(kind, doc.rowId, s, j)])
    {
      if j < k { assert MentionId(kind, doc.rowId, s, j) in m; }
    }
  }

  lemma KeysBeforeAdd(kind: Kind, doc: Doc, s: nat, k: nat, m: map<string, Mention>, r: Mention)
    requires KeysBefore(kind, doc, s, k, m)
    ensures MentionId(kind, doc.rowId, s, k) !in m
    ensures KeysBefore(kind, doc, s, k + 1, m[MentionId(kind, doc.rowId, s, k) := r])
  {
    var id := MentionId(kind, doc.rowId, s, k);
    DecodeMentionId(kind, doc.rowId, s, k);
    assert id !in m;
    var next := m[id := r];
    forall i | i in next ensures IdBefore(kind, doc, i, s, k + 1) {
      if i != id { assert IdBefore(kind, doc, i, s, k); }
    }
  }

  /** One pass of a mention loop stores a new entry: the identifier is not
      yet a key, so no earlier record is overwritten. */
  lemma FilledStep(kind: Kind, doc: Doc, s: nat, si: SentenceInput, k: nat, m: map<string, Mention>, r: Mention)
    requires s < |doc.sentences| && SentenceInputAt(doc, s) == Some(si) && k < |Items(kind, si)|
    requires Filled(kind, doc, s, k, m)
    requires MentionOf(doc, s, si.spans, Items(kind, si)[k]) == Some(r)
    ensures MentionId(kind, doc.rowId, s, k) !in m
    ensures Filled(kind, doc, s, k + 1, m[MentionId(kind, doc.rowId, s, k) := r])
  {
    var id := MentionId(kind, doc.rowId, s, k);
    KeysBeforeAdd(kind, doc, s, k, m, r);
    assert MentionAt(kind, doc, s, k) == Some(r);
    CoveredBeforeAdd(kind, doc, s, m, id, r);
    CoveredUpToAdd(kind, doc, s, k, m, r);
    assert |m[id := r]| == |m| + 1;
  }

  lemma {:induction false} AddMentionsFromFills(kind: Kind, doc: Doc, s: nat, si: SentenceInput, k: nat,
                                                m: map<string, Mention>, m': map<string, Mention>)
    requires s < |doc.sentences| && SentenceInputAt(doc, s) == Some(si) && k <= |Items(kind, si)|
    requires Filled(kind, doc, s, k, m)
    requires AddMentionsFrom(kind, doc, s, si.spans, Items(kind, si), k, m) == Some(m')
    ensures Filled(kind, doc, s, |Items(kind, si)|, m')
    decreases |Items(kind, si)| - k
  {
    var items := Items(kind, si);
    if k < |items| {
      var r :| MentionOf(doc, s, si.spans, items[k]) == Some(r);
      FilledStep(kind, doc, s, si, k, m, r);
      AddMentionsFromFills(kind, doc, s, si, k + 1, m[MentionId(kind, doc.rowId, s, k) := r], m');
    }
  }

  lemma CoveredNextSentence(kind: Kind, doc: Doc, s: nat, m: map<string, Mention>)
    requires s < |doc.sentences|
    requires CoveredBefore(kind, doc, s, m) && CoveredUpTo(kind, doc, s, CountOf(kind, doc, s), m)
    ensures CoveredBefore(kind, doc, s + 1, m)
  {
  }

  lemma KeysNextSentence(kind: Kind, doc: Doc, s: nat, m: map<string, Mention>)
    requires KeysBefore(kind, doc, s, CountOf(kind, doc, s), m)
    ensures KeysBefore(kind, doc, s + 1, 0, m)
  {
    forall id | id in m ensures IdBefore(kind, doc, id, s + 1, 0) {
      assert IdBefore(kind, doc, id, s, CountOf(kind, doc, s));
    }
  }

  lemma FilledNextSentence(kind: Kind, doc: Doc, s: nat, m: map<string, Mention>)
    requires s < |doc.sentences|
    requires Filled(kind, doc, s, CountOf(kind, doc, s), m)
    ensures s + 1 < |doc.sentences| ==> Filled(kind, doc, s + 1, 0, m)
    ensures s + 1 == |doc.sentences| ==> FilledAll(kind, doc, m)
  {
    NextSentenceParts(kind, doc, s, m);
    FilledFromParts(kind, doc, s + 1, m);
  }

  lemma NextSentenceParts(kind: Kind, doc: Doc, s: nat, m: map<string, Mention>)
    requires s < |doc.sentences|
    requires Filled(kind, doc, s, CountOf(kind, doc, s), m)
    ensures CoveredBefore(kind, doc, s + 1, m) && KeysBefore(kind, doc, s + 1, 0, m)
    ensures |m| == TotalOf(kind, doc, s + 1)
  {
    CoveredNextSentence(kind, doc, s, m);
    KeysNextSentence(kind, doc, s, m);
  }

  lemma FilledFromParts(kind: Kind, doc: Doc, s: nat, m: map<string, Mention>)
    requires s <= |doc.sentences|
    requires CoveredBefore(kind, doc, s, m) && KeysBefore(kind, doc, s, 0, m) && |m| == TotalOf(kind, doc, s)
    ensures s < |doc.sentences| ==> Filled(kind, doc, s, 0, m)
    ensures s == |doc.sentences| ==> FilledAll(kind, doc, m)
  {
    if s < |doc.sentences| {
      assert CoveredUpTo(kind, doc, s, 0, m);
    }
  }

  lemma ItemsCount(kind: Kind, doc: Doc, s: nat, si: SentenceInput)
    requires s < |doc.sentences| && SentenceInputAt(doc, s) == Some(si)
    ensures CountOf(kind, doc, s) == |Items(kind, si)|
  {
  }

  /** A mention loop only adds keys: every earlier key is still a key, and
      the identifiers of items k onwards are keys afterwards. When every key
      is the identifier of an item of an earlier sentence or of one of the
      first k items of sentence s (KeysBefore, as holds in the source, where
      the loop starts on a map of earlier sentences only), every earlier
      record is kept unchanged, so none is replaced. */
  lemma AddMentionsFromGrows(kind: Kind, doc: Doc, s: nat, spans: seq<Span>, items: seq<Item>,
                             k: nat, m: map<string, Mention>, m': map<string, Mention>)
    requires s < |doc.sentences| && k <= |items|
    requires AddMentionsFrom(kind, doc, s, spans, items, k, m) == Some(m')
    ensures m.Keys <= m'.Keys
    ensures forall j :: k <= j < |items| ==> MentionId(kind, doc.rowId, s, j) in m'
    ensures KeysBefore(kind, doc, s, k, m) ==> forall id :: id in m ==> m'[id] == m[id]
  {
    AddMentionsFromKeys(kind, doc, s, spans, items, k, m, m');
    if KeysBefore(kind, doc, s, k, m) {
      AddMentionsFromKeepsRecords(kind, doc, s, spans, items, k, m, m');
    }
  }

  lemma {:induction false} AddMentionsFromKeys(kind: Kind, doc: Doc, s: nat, spans: seq<Span>, items: seq<Item>,
                                               k: nat, m: map<string, Mention>, m': map<string, Mention>)
    requires s < |doc.sentences| && k <= |items|
    requires AddMentionsFrom(kind, doc, s, spans, items, k, m) == Some(m')
    ensures m.Keys <= m'.Keys
    ensures forall j :: k <= j < |items| ==> MentionId(kind, doc.rowId, s, j) in m'
    decreases |items| - k
  {
    if k < |items| {
      var r :| MentionOf(doc, s, spans, items[k]) == Some(r);
      var next := m[MentionId(kind, doc.rowId, s, k) := r];
      AddMentionsFromKeys(kind, doc, s, spans, items, k + 1, next, m');
    }
  }

  lemma {:induction false} AddMentionsFromKeepsRecords(kind: Kind, doc: Doc, s: nat, spans: seq<Span>,
                                                       items: seq<Item>, k: nat,
                                                       m: map<string, Mention>, m': map<string, Mention>)
    requires s < |doc.sentences| && k <= |items|
    requires KeysBefore(kind, doc, s, k, m)
    requires AddMentionsFrom(kind, doc, s, spans, items, k, m) == Some(m')
    ensures forall id :: id in m ==> id in m' && m'[id] == m[id]
    decreases |items| - k
  {
    if k < |items| {
      var r :| MentionOf(doc, s, spans, items[k]) == Some(r);
      var id0 := MentionId(kind, doc.rowId, s, k);
      KeysBeforeAdd(kind, doc, s, k, m, r);
      var next := m[id0 := r];
      AddMentionsFromKeepsRecords(kind, doc, s, spans, items, k + 1, next, m');
      forall id | id in m ensures id in m' && m'[id] == m[id] {
        assert id != id0 && id in next && next[id] == m[id];
      }
    }
  }

  // ---------------------------------------------------------------------
  // Relations

  /** The identifier is a key of the time expressions or of the events. */
  predicate Recorded(info: TemporalInfo, id: string)
  {
    id in info.timexes || id in info.events
  }

  /** No relation of the list points at an identifier missing from info. */
  predicate NoDangling(info: TemporalInfo)
  {
    forall i :: 0 <= i < |info.relations| ==>
      Recorded(info, info.relations[i].arg1) && Recorded(info, info.relations[i].arg2)
  }

  /** The relation item has both arguments, so the source keeps it. */
  predicate BothArgs(rel: RelItem)
  {
    rel.arg1.Some? && rel.arg2.Some?
  }

  /** The relation items from k on that have two non-null arguments, in
      their order: exactly the items the source keeps. */
  function KeptItems(rels: seq<RelItem>, k: nat): (kept: seq<RelItem>)
    requires k <= |rels|
    ensures forall i :: 0 <= i < |kept| ==> BothArgs(kept[i])
    decreases |rels| - k
  {
    if k == |rels| then []
    else if BothArgs(rels[k]) then [rels[k]] + KeptItems(rels, k + 1)
    else KeptItems(rels, k + 1)
  }

  /** rel is the record the source appends for the relation item of sentence
      s: same row and sentence, the item's category, and each argument the
      identifier its `EVENT-i` / `TIMEX-i` reference resolves to. */
  predicate ResolvedFrom(doc: Doc, s: nat, item: RelItem, timexIds: seq<string>, eventIds: seq<string>, rel: Relation)
    requires BothArgs(item)
  {
    rel.rowId == doc.rowId && rel.sentIndex == s && rel.category == item.category
    && ResolveArg(item.arg1.value, timexIds, eventIds) == Some(rel.arg1)
    && ResolveArg(item.arg2.value, timexIds, eventIds) == Some(rel.arg2)
  }

  /** The relation loop appends, in order, one record per relation item with
      two non-null arguments, resolved against the sentence's identifier
      lists; what was there before stays as a prefix. */
  lemma AddRelationsFromKeeps(doc: Doc, s: nat, rels: seq<RelItem>, timexIds: seq<string>,
                              eventIds: seq<string>, k: nat, acc: seq<Relation>, out: seq<Relation>)
    requires k <= |rels|
    requires AddRelationsFrom(doc, s, rels, timexIds, eventIds, k, acc) == Some(out)
    ensures |out| == |acc| + |KeptItems(rels, k)|
    ensures out[..|acc|] == acc
    ensures forall i :: 0 <= i < |KeptItems(rels, k)| ==>
              ResolvedFrom(doc, s, KeptItems(rels, k)[i], timexIds, eventIds, out[|acc| + i])
    ensures forall i :: |acc| <= i < |out| ==>
              (out[i].arg1 in timexIds || out[i].arg1 in eventIds) && (out[i].arg2 in timexIds || out[i].arg2 in eventIds)
  {
    AddRelationsFromPrefix(doc, s, rels, timexIds, eventIds, k, acc, out);
    AddRelationsFromContents(doc, s, rels, timexIds, eventIds, k, acc, out);
  }

  lemma {:induction false} AddRelationsFromContents(doc: Doc, s: nat, rels: seq<RelItem>, timexIds: seq<string>,
                                                    eventIds: seq<string>, k: nat, acc: seq<Relation>, out: seq<Relation>)
    requires k <= |rels|
    requires AddRelationsFrom(doc, s, rels, timexIds, eventIds, k, acc) == Some(out)
    ensures |acc| + |KeptItems(rels, k)| <= |out|
    ensures forall i :: 0 <= i < |KeptItems(rels, k)| ==>
              ResolvedFrom(doc, s, KeptItems(rels, k)[i], timexIds, eventIds, out[|acc| + i])
    decreases |rels| - k
  {
    if k < |rels| {
      var rel := rels[k];
      if !BothArgs(rel) {
        AddRelationsFromContents(doc, s, rels, timexIds, eventIds, k + 1, acc, out);
      } else {
        var a1 := ResolveArg(rel.arg1.value, timexIds, eventIds).value;
        var a2 := ResolveArg(rel.arg2.value, timexIds, eventIds).value;
        var r := Relation(doc.rowId, s, a1, a2, rel.category);
        var acc' := acc + [r];
        AddRelationsFromContents(doc, s, rels, timexIds, eventIds, k + 1, acc', out);
        AddRelationsFromPrefix(doc, s, rels, timexIds, eventIds, k + 1, acc', out);
        assert out[|acc|] == out[..|acc'|][|acc|] == r;
        var kept, kept' := KeptItems(rels, k), KeptItems(rels, k + 1);
        forall i | 0 <= i < |kept| ensures ResolvedFrom(doc, s, kept[i], timexIds, eventIds, out[|acc| + i]) {
          if i > 0 {
            assert kept[i] == kept'[i - 1] && |acc| + i == |acc'| + (i - 1);
          }
        }
      }
    }
  }

  /** The relation loop only appends: one record per kept item, each
      pointing into the sentence's identifier lists. */
  lemma {:induction false} AddRelationsFromPrefix(doc: Doc, s: nat, rels: seq<RelItem>, timexIds: seq<string>,
                                                  eventIds: seq<string>, k: nat, acc: seq<Relation>, out: seq<Relation>)
    requires k <= |rels|
    requires AddRelationsFrom(doc, s, rels, timexIds, eventIds, k, acc) == Some(out)
    ensures |out| == |acc| + |KeptItems(rels, k)|
    ensures out[..|acc|] == acc
    ensures forall i :: |acc| <= i < |out| ==>
              (out[i].arg1 in timexIds || out[i].arg1 in eventIds) && (out[i].arg2 in timexIds || out[i].arg2 in eventIds)
    decreases |rels| - k
  {
    if k < |rels| {
      var rel := rels[k];
      if !BothArgs(rel) {
        AddRelationsFromPrefix(doc, s, rels, timexIds, eventIds, k + 1, acc, out);
      } else {
        var a1 := ResolveArg(rel.arg1.value, timexIds, eventIds).value;
        var a2 := ResolveArg(rel.arg2.value, timexIds, eventIds).value;
        var acc' := acc + [Relation(doc.rowId, s, a1, a2, rel.category)];
        AddRelationsFromPrefix(doc, s, rels, timexIds, eventIds, k + 1, acc', out);
        assert out[..|acc'|][..|acc|] == out[..|acc|];
      }
    }
  }

  lemma InMentionIds(kind: Kind, rowId: int, s: nat, n: nat, id: string) returns (j: nat)
    requires id in MentionIds(kind, rowId, s, n)
    ensures j < n && id == MentionId(kind, rowId, s, j)
  {
    var ids := MentionIds(kind, rowId, s, n);
    var i :| 0 <= i < |ids| && ids[i] == id;
    j := i;
  }

  /** The number of relation items of sentence t that the source keeps. */
  function KeptCount(doc: Doc, t: nat): nat
  {
    if t < |doc.ann.relations| then |KeptItems(doc.ann.relations[t], 0)| else 0
  }

  /** rs is, in order, one record per relation item of sentence t with two
      non-null arguments, each resolved against the identifiers of the
      sentence's own time expressions and events. */
  predicate SentenceRelations(doc: Doc, t: nat, rs: seq<Relation>)
  {
    if t < |doc.ann.relations| then
      var kept := KeptItems(doc.ann.relations[t], 0);
      var timexIds := MentionIds(Timex, doc.rowId, t, CountOf(Timex, doc, t));
      var eventIds := MentionIds(Event, doc.rowId, t, CountOf(Event, doc, t));
      |rs| == |kept| && forall i :: 0 <= i < |kept| ==> ResolvedFrom(doc, t, kept[i], timexIds, eventIds, rs[i])
    else rs == []
  }

  /** relations is the first n sentences' kept relations, sentence after
      sentence. */
  predicate RelationsUpTo(doc: Doc, n: nat, relations: seq<Relation>)
    decreases n
  {
    if n == 0 then relations == []
    else
      var c := KeptCount(doc, n - 1);
      c <= |relations| && RelationsUpTo(doc, n - 1, relations[..|relations| - c])
      && SentenceRelations(doc, n - 1, relations[|relations| - c..])
  }

  /** The relation loop of sentence s extends the relations of the sentences
      before it by exactly that sentence's kept relations. */
  lemma RelationsStep(doc: Doc, s: nat, si: SentenceInput, acc: seq<Relation>, out: seq<Relation>)
    requires s < |doc.sentences| && SentenceInputAt(doc, s) == Some(si)
    requires RelationsUpTo(doc, s, acc)
    requires AddRelationsFrom(doc, s, si.rels, MentionIds(Timex, doc.rowId, s, |si.timexes|),
                              MentionIds(Event, doc.rowId, s, |si.events|), 0, acc) == Some(out)
    ensures RelationsUpTo(doc, s + 1, out)
  {
    var tIds, eIds := MentionIds(Timex, doc.rowId, s, |si.timexes|), MentionIds(Event, doc.rowId, s, |si.events|);
    AddRelationsFromKeeps(doc, s, si.rels, tIds, eIds, 0, acc, out);
    ItemsCount(Timex, doc, s, si);
    ItemsCount(Event, doc, s, si);
    assert si.rels == doc.ann.relations[s];
    var c := KeptCount(doc, s);
    assert out[..|out| - c] == acc;
    var added := out[|out| - c..];
    forall i | 0 <= i < c ensures added[i] == out[|acc| + i] { }
    assert SentenceRelations(doc, s, added);
  }

  // ---------------------------------------------------------------------
  // The whole note

  /** What holds of the partial result after the first s sentences. */
  predicate Partial(doc: Doc, s: nat, info: TemporalInfo)
    requires s < |doc.sentences|
  {
    Filled(Timex, doc, s, 0, info.timexes) && Filled(Event, doc, s, 0, info.events)
    && NoDangling(info) && RelationsUpTo(doc, s, info.relations)
  }

  /** What holds of the finished result. */
  predicate Complete(doc: Doc, info: TemporalInfo)
  {
    FilledAll(Timex, doc, info.timexes) && FilledAll(Event, doc, info.events)
    && NoDangling(info) && RelationsUpTo(doc, |doc.sentences|, info.relations)
  }

  lemma SentenceStepKeeps(doc: Doc, s: nat, info: TemporalInfo, next: TemporalInfo)
    requires s < |doc.sentences| && Partial(doc, s, info)
    requires SentenceStep(doc, s, info) == Some(next)
    ensures s + 1 < |doc.sentences| ==> Partial(doc, s + 1, next)
    ensures s + 1 == |doc.sentences| ==> Complete(doc, next)
  {
    var si := SentenceInputAt(doc, s).value;
    var tm := AddMentionsFrom(Timex, doc, s, si.spans, si.timexes, 0, info.timexes).value;
    var em := AddMentionsFrom(Event, doc, s, si.spans, si.events, 0, info.events).value;
    var tIds, eIds := MentionIds(Timex, doc.rowId, s, |si.timexes|), MentionIds(Event, doc.rowId, s, |si.events|);
    var rs := AddRelationsFrom(doc, s, si.rels, tIds, eIds, 0, info.relations).value;
    assert next == TemporalInfo(tm, em, rs);
    AddMentionsFromFills(Timex, doc, s, si, 0, info.timexes, tm);
    AddMentionsFromFills(Event, doc, s, si, 0, info.events, em);
    AddMentionsFromKeys(Timex, doc, s, si.spans, si.timexes, 0, info.timexes, tm);
    AddMentionsFromKeys(Event, doc, s, si.spans, si.events, 0, info.events, em);
    ItemsCount(Timex, doc, s, si);
    ItemsCount(Event, doc, s, si);
    FilledNextSentence(Timex, doc, s, tm);
    FilledNextSentence(Event, doc, s, em);
    AddRelationsFromKeeps(doc, s, si.rels, tIds, eIds, 0, info.relations, rs);
    RelationsStep(doc, s, si, info.relations, rs);
    forall i | 0 <= i < |rs| ensures Recorded(next, rs[i].arg1) && Recorded(next, rs[i].arg2) {
      if i < |info.relations| {
        assert rs[i] == info.relations[i];
        assert Recorded(info, rs[i].arg1) && Recorded(info, rs[i].arg2);
      } else {
        ArgRecorded(doc, s, si, tm, em, rs[i].arg1);
        ArgRecorded(doc, s, si, tm, em, rs[i].arg2);
      }
    }
  }

  lemma ArgRecorded(doc: Doc, s: nat, si: SentenceInput, tm: map<string, Mention>, em: map<string, Mention>, id: string)
    requires s < |doc.sentences|
    requires forall j :: 0 <= j < |si.timexes| ==> MentionId(Timex, doc.rowId, s, j) in tm
    requires forall j :: 0 <= j < |si.events| ==> MentionId(Event, doc.rowId, s, j) in em
    requires id in MentionIds(Timex, doc.rowId, s, |si.timexes|) || id in MentionIds(Event, doc.rowId, s, |si.events|)
    ensures id in tm || id in em
  {
    if id in MentionIds(Timex, doc.rowId, s, |si.timexes|) {
      var j := InMentionIds(Timex, doc.rowId, s, |si.timexes|, id);
    } else {
      var j := InMentionIds(Event, doc.rowId, s, |si.events|, id);
    }
  }

  /** Partial before the last sentence, Complete after it. */
  ghost predicate Good(doc: Doc, s: nat, info: TemporalInfo)
  {
    if s < |doc.sentences| then Partial(doc, s, info) else Complete(doc, info)
  }

  lemma GoodAtStart(doc: Doc)
    ensures Good(doc, 0, EmptyInfo)
  {
    if |doc.sentences| > 0 {
      assert Partial(doc, 0, EmptyInfo);
    }
  }

  lemma SentenceStepKeepsGood(doc: Doc)
    ensures forall t: nat, i, next ::
              t < |doc.sentences| && Good(doc, t, i) && SentenceStep(doc, t, i) == Some(next) ==> Good(doc, t + 1, next)
  {
    forall t: nat, i, next | t < |doc.sentences| && Good(doc, t, i) && SentenceStep(doc, t, i) == Some(next)
      ensures Good(doc, t + 1, next)
    {
      SentenceStepKeeps(doc, t, i, next);
    }
  }

  /** Whatever one sentence step keeps, the whole fold keeps. */
  lemma {:induction false} AssembleFromKeeps(doc: Doc, inv: (nat, TemporalInfo) -> bool, s: nat,
                                             info: TemporalInfo, out: TemporalInfo)
    requires s <= |doc.sentences| && inv(s, info)
    requires forall t: nat, i, next ::
               t < |doc.sentences| && inv(t, i) && SentenceStep(doc, t, i) == Some(next) ==> inv(t + 1, next)
    requires AssembleFrom(doc, s, info) == Some(out)
    ensures inv(|doc.sentences|, out)
    decreases |doc.sentences| - s
  {
    if s < |doc.sentences| {
      var next := SentenceStep(doc, s, info).value;
      AssembleFromKeeps(doc, inv, s + 1, next, out);
    }
  }

  /** The output of a note, described by its inputs. For each kind, the
      entry stored under `Kind_Row-r_Sent-s_Ind-j` is exactly the record the
      j-th item of sentence s yields (offsets from its first and last token
      plus the sentence's begin, text re-sliced from the note); every key is
      such an identifier; and there are exactly as many entries as items the
      service returned, so no entry was overwritten. The relations are,
      sentence after sentence and in the service's order, one per relation
      item with two non-null arguments, carrying that sentence's index, the
      item's category and the identifiers its two references resolve to
      within the sentence; none of them points at a missing identifier. */
  lemma AssembleComplete(doc: Doc, info: TemporalInfo)
    requires Assemble(doc) == Some(info)
    ensures Complete(doc, info)
  {
    var inv := (t: nat, i: TemporalInfo) => Good(doc, t, i);
    GoodAtStart(doc);
    SentenceStepKeepsGood(doc);
    AssembleFromKeeps(doc, inv, 0, EmptyInfo, info);
  }

  /** The identifiers of the two kinds never collide, and within a kind an
      identifier names one (sentence, ordinal) pair: the keys of `timexes`
      and `events` are unique across the whole note. */
  lemma IdsUnique(rowId: int, k1: Kind, s1: nat, j1: nat, k2: Kind, s2: nat, j2: nat)
    requires MentionId(k1, rowId, s1, j1) == MentionId(k2, rowId, s2, j2)
    ensures k1 == k2 && s1 == s2 && j1 == j2
  {
    var a, b := MentionId(k1, rowId, s1, j1), MentionId(k2, rowId, s2, j2);
    assert a[0] == KindName(k1)[0] && b[0] == KindName(k2)[0];
    MentionIdInjective(k1, rowId, s1, j1, s2, j2);
  }

  // ---------------------------------------------------------------------
  // The text of a record

  /** Token spans as `align_tokens` produces them for a sentence of length
      n: each inside the sentence and each starting after the previous one
      ends. */
  predicate OrderedWithin(spans: seq<Span>, n: nat)
  {
    (forall i :: 0 <= i < |spans| ==> spans[i].begin <= spans[i].end <= n)
    && (forall i, j :: 0 <= i < j < |spans| ==> spans[i].end <= spans[j].begin)
  }

  /** For a sentence inside the note, ordered token spans and a first token
      not after the last one, the record's text is the stretch of the note
      from the start of its first token through the end of its last token:
      it begins with the first token's text and ends with the last token's. */
  lemma MentionText(doc: Doc, s: nat, spans: seq<Span>, item: Item)
    requires s < |doc.sentences|
    requires doc.sentences[s].begin <= doc.sentences[s].end <= |doc.text|
    requires OrderedWithin(spans, doc.sentences[s].end - doc.sentences[s].begin)
    requires 0 <= item.begin <= item.end < |spans|
    ensures MentionOf(doc, s, spans, item).Some?
    ensures var m := MentionOf(doc, s, spans, item).value;
            var base := doc.sentences[s].begin;
            var first, last := spans[item.begin], spans[item.end];
            && m.begin == base + first.begin && m.end == base + last.end
            && m.begin <= m.end <= |doc.text|
            && m.text == doc.text[m.begin..m.end]
            && |m.text| == m.end - m.begin
            && doc.text[base + first.begin..base + first.end] == m.text[..first.end - first.begin]
            && doc.text[base + last.begin..base + last.end] == m.text[|m.text| - (last.end - last.begin)..]
  {
    var base := doc.sentences[s].begin;
    var first, last := spans[item.begin], spans[item.end];
    var m := MentionBounds(doc, s, spans, item);
    TokenTexts(doc.text, base, first, last, m.text);
  }

  /** The record of an item, where it starts and ends, and that its text is
      that stretch of the note. */
  lemma MentionBounds(doc: Doc, s: nat, spans: seq<Span>, item: Item) returns (m: Mention)
    requires s < |doc.sentences|
    requires doc.sentences[s].begin <= doc.sentences[s].end <= |doc.text|
    requires OrderedWithin(spans, doc.sentences[s].end - doc.sentences[s].begin)
    requires 0 <= item.begin <= item.end < |spans|
    ensures MentionOf(doc, s, spans, item) == Some(m)
    ensures var base := doc.sentences[s].begin;
            var first, last := spans[item.begin], spans[item.end];
            && m.begin == base + first.begin && m.end == base + last.end
            && first.begin <= first.end <= last.end && first.begin <= last.begin <= last.end
            && base + last.end <= |doc.text| && m.text == doc.text[base + first.begin..base + last.end]
  {
    var base := doc.sentences[s].begin;
    var first, last := spans[item.begin], spans[item.end];
    assert first.begin <= first.end && last.begin <= last.end <= doc.sentences[s].end - base;
    if item.begin < item.end {
      assert first.end <= last.begin;
    }
    assert PyAt(spans, item.begin) == Some(first) && PyAt(spans, item.end) == Some(last);
    m := MentionOf(doc, s, spans, item).value;
  }

  /** Inside the stretch of the text from the first token's start to the
      last token's end, the first token's text is its head and the last
      token's text is its tail. */
  lemma TokenTexts(text: string, base: nat, first: Span, last: Span, mtext: string)
    requires first.begin <= first.end <= last.end && first.begin <= last.begin <= last.end
    requires base + last.end <= |text|
    requires mtext == text[base + first.begin..base + last.end]
    ensures |mtext| == last.end - first.begin
    ensures text[base + first.begin..base + first.end] == mtext[..first.end - first.begin]
    ensures text[base + last.begin..base + last.end] == mtext[|mtext| - (last.end - last.begin)..]
  {
  }
}
