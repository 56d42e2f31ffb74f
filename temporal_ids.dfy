/** Identifiers of time expressions and events, and the service's
    `EVENT-i` / `TIMEX-i` references that relations use to point at them. */
module TemporalIds {
  import opened Builtins

  datatype Kind = Timex | Event

  /** The identifier's leading word. */
  function KindName(kind: Kind): string
  {
    match kind
    case Timex => "Timex"
    case Event => "Event"
  }

  /** The word the service writes before the index in a relation argument. */
  function ArgKindName(kind: Kind): string
  {
    match kind
    case Timex => "TIMEX"
    case Event => "EVENT"
  }

  function IdPrefix(kind: Kind, rowId: int): string
  {
    KindName(kind) + "_Row-" + IntToString(rowId) + "_Sent-"
  }

  /** `'Timex_Row-%d_Sent-%d_Ind-%d' % (row_id, sentence_ind, len(timex_ids))`
      and its `Event_` twin: the ind-th mention of its kind in sentence sent. */
  function MentionId(kind: Kind, rowId: int, sent: nat, ind: nat): string
  {
    IdPrefix(kind, rowId) + NatToString(sent) + "_Ind-" + NatToString(ind)
  }

  /** The `timex_ids` / `event_ids` list of a sentence once n mentions of
      that kind have been recorded. */
  function MentionIds(kind: Kind, rowId: int, sent: nat, n: nat): seq<string>
  {
    seq(n, j requires 0 <= j < n => MentionId(kind, rowId, sent, j))
  }

  /** The longest prefix of s made of decimal digits. */
  function LeadingDigits(s: string): (d: string)
    ensures |d| <= |s| && d == s[..|d|] && AllDigits(d)
    decreases |s|
  {
    if |s| > 0 && IsDigit(s[0]) then [s[0]] + LeadingDigits(s[1..]) else []
  }

  lemma {:induction false} LeadingDigitsOf(d: string, rest: string)
    requires AllDigits(d)
    requires |rest| > 0 && !IsDigit(rest[0])
    ensures LeadingDigits(d + rest) == d
    decreases |d|
  {
    var s := d + rest;
    if |d| == 0 {
      assert s[0] == rest[0];
    } else {
      assert s[0] == d[0] && s[1..] == d[1..] + rest;
      LeadingDigitsOf(d[1..], rest);
      assert [d[0]] + d[1..] == d;
    }
  }

  /** The number that `'%d'` writes as s, if any: no sign, no leading zero. */
  function ReadNat(s: string): Option<nat>
  {
    if |s| > 1 && s[0] == '0' then None else ParseInt(s)
  }

  lemma ReadNatExact(s: string, n: nat)
    requires ReadNat(s) == Some(n)
    ensures NatToString(n) == s
  {
    DigitsNatToString(s);
  }

  lemma ReadNatToString(n: nat)
    ensures ReadNat(NatToString(n)) == Some(n)
  {
    ParseNatToString(n);
    NatToStringLead(n);
  }

  /** Reads the (sentence, ordinal) pair back out of an identifier of the
      given kind and row; None for a string that is not such an identifier. */
  function DecodeId(kind: Kind, rowId: int, id: string): Option<(nat, nat)>
  {
    var p := IdPrefix(kind, rowId);
    if |id| < |p| || id[..|p|] != p then None
    else
      var rest := id[|p|..];
      var d := LeadingDigits(rest);
      var tail := rest[|d|..];
      if |tail| < 5 || tail[..5] != "_Ind-" then None
      else
        match (ReadNat(d), ReadNat(tail[5..]))
        case (Some(s), Some(k)) => Some((s, k))
        case _ => None
  }

  /** Whatever DecodeId accepts is exactly the identifier of the pair it
      returns. */
  lemma DecodeIdExact(kind: Kind, rowId: int, id: string, t: nat, j: nat)
    requires DecodeId(kind, rowId, id) == Some((t, j))
    ensures id == MentionId(kind, rowId, t, j)
  {
    var p := IdPrefix(kind, rowId);
    var rest := id[|p|..];
    var d := LeadingDigits(rest);
    var tail := rest[|d|..];
    ReadNatExact(d, t);
    ReadNatExact(tail[5..], j);
    Rejoin(id, p);
    Rejoin(rest, d);
    Rejoin(tail, "_Ind-");
    Regroup(id, p, rest, d, tail, tail[5..]);
  }

  lemma Rejoin(s: string, p: string)
    requires |p| <= |s| && s[..|p|] == p
    ensures s == p + s[|p|..]
  {
  }

  lemma Regroup(id: string, p: string, rest: string, a: string, tail: string, b: string)
    requires id == p + rest && rest == a + tail && tail == "_Ind-" + b
    ensures id == p + a + "_Ind-" + b
  {
  }

  /** An identifier names its sentence and ordinal unambiguously. */
  lemma DecodeMentionId(kind: Kind, rowId: int, sent: nat, ind: nat)
    ensures DecodeId(kind, rowId, MentionId(kind, rowId, sent, ind)) == Some((sent, ind))
  {
    var p := IdPrefix(kind, rowId);
    var id := MentionId(kind, rowId, sent, ind);
    var ds, dk := NatToString(sent), NatToString(ind);
    assert id[..|p|] == p;
    var rest := id[|p|..];
    assert rest == ds + ("_Ind-" + dk);
    LeadingDigitsOf(ds, "_Ind-" + dk);
    var tail := rest[|ds|..];
    assert tail == "_Ind-" + dk;
    assert tail[..5] == "_Ind-" && tail[5..] == dk;
    ReadNatToString(sent);
    ReadNatToString(ind);
  }

  /** Distinct (sentence, ordinal) pairs of one kind and row never share an
      identifier. */
  lemma MentionIdInjective(kind: Kind, rowId: int, s1: nat, k1: nat, s2: nat, k2: nat)
    requires MentionId(kind, rowId, s1, k1) == MentionId(kind, rowId, s2, k2)
    ensures s1 == s2 && k1 == k2
  {
    DecodeMentionId(kind, rowId, s1, k1);
    DecodeMentionId(kind, rowId, s2, k2);
  }

  /** `kind, ind = arg.split('-')` followed by `int(ind)`; None stands for
      the ValueError of a wrong number of parts or a non-numeric index. */
  function ParseArg(arg: string): Option<(string, nat)>
  {
    var parts := Split(arg, '-');
    if |parts| != 2 then None
    else
      match ParseInt(parts[1])
      case None => None
      case Some(i) => Some((parts[0], i))
  }

  /** A reference written as `<KIND>-<index>` reads back as that pair. */
  lemma ParseArgRoundTrip(kindName: string, i: nat)
    requires '-' !in kindName
    ensures ParseArg(kindName + "-" + NatToString(i)) == Some((kindName, i))
  {
    var digits := NatToString(i);
    assert '-' !in digits;
    SplitAtFirst(kindName, '-', digits);
    SplitNoSep(digits, '-');
    assert kindName + "-" + digits == kindName + ['-'] + digits;
    ParseNatToString(i);
  }

  /** One relation argument resolved within its sentence: `event_ids[i]`
      for `EVENT-i`, `timex_ids[i]` for `TIMEX-i`. None stands for the
      exception: a malformed reference, an index out of range, or a kind
      other than EVENT and TIMEX. */
  function ResolveArg(arg: string, timexIds: seq<string>, eventIds: seq<string>): (r: Option<string>)
    ensures r.Some? ==> r.value in timexIds || r.value in eventIds
  {
    match ParseArg(arg)
    case None => None
    case Some((kind, i)) =>
      if kind == "EVENT" then PyAt(eventIds, i)
      else if kind == "TIMEX" then PyAt(timexIds, i)
      else None
  }

  /** `EVENT-i` / `TIMEX-i` resolves to the identifier of the i-th mention of
      that kind in the same sentence, and fails exactly when the sentence has
      no i-th mention of that kind. */
  lemma ResolveArgOfSentence(kind: Kind, i: nat, rowId: int, sent: nat, nTimex: nat, nEvent: nat)
    ensures var n := if kind == Timex then nTimex else nEvent;
            ResolveArg(ArgKindName(kind) + "-" + NatToString(i),
                       MentionIds(Timex, rowId, sent, nTimex), MentionIds(Event, rowId, sent, nEvent))
            == if i < n then Some(MentionId(kind, rowId, sent, i)) else None
  {
    ParseArgRoundTrip(ArgKindName(kind), i);
  }
}
