/** `fix_simple_tokenize`: the token-list rewrite that glues an apostrophe
    token and a following `s` token back into the single token `'s`. */
module SimpleTokenize {

  /** Tokens i and i + 1 are `'` and `s`: the pattern the rewrite merges. */
  predicate PairAt(tokens: seq<string>, i: int)
  {
    0 <= i && i + 1 < |tokens| && tokens[i] == "'" && tokens[i + 1] == "s"
  }

  predicate NoPair(tokens: seq<string>)
  {
    forall i :: 0 <= i < |tokens| ==> !PairAt(tokens, i)
  }

  /** The rewrite, read left to right: each `'` directly followed by `s`
      becomes one `'s` token and every other token is copied in order. */
  function Fixed(tokens: seq<string>): seq<string>
    decreases |tokens|
  {
    if |tokens| == 0 then []
    else if PairAt(tokens, 0) then ["'s"] + Fixed(tokens[2..])
    else [tokens[0]] + Fixed(tokens[1..])
  }

  /** The text the tokens spell, read without separators. */
  function Concat(tokens: seq<string>): string
    decreases |tokens|
  {
    if |tokens| == 0 then "" else tokens[0] + Concat(tokens[1..])
  }

  /** The source's while loop: `ind` advances by two over a merged pair and
      by one otherwise, appending to `newTokens`. */
  method FixSimpleTokenize(tokens: seq<string>) returns (newTokens: seq<string>)
    ensures newTokens == Fixed(tokens)
  {
    newTokens := [];
    var ind := 0;
    while ind < |tokens|
      invariant 0 <= ind <= |tokens|
      invariant newTokens + Fixed(tokens[ind..]) == Fixed(tokens)
    {
      if tokens[ind] == "'" && ind + 1 < |tokens| && tokens[ind + 1] == "s" {
        assert PairAt(tokens[ind..], 0);
        assert tokens[ind..][2..] == tokens[ind + 2..];
        newTokens := newTokens + ["'s"];
        ind := ind + 2;
      } else {
        assert !PairAt(tokens[ind..], 0);
        assert tokens[ind..][1..] == tokens[ind + 1..];
        newTokens := newTokens + [tokens[ind]];
        ind := ind + 1;
      }
    }
    assert tokens[ind..] == [];
  }

  /** The first output token is the merged `'s` or the first input token. */
  lemma FixedHead(tokens: seq<string>)
    requires |tokens| > 0
    ensures |Fixed(tokens)| > 0
    ensures Fixed(tokens)[0] == (if PairAt(tokens, 0) then "'s" else tokens[0])
  {
  }

  /** Merging loses no text: the output spells exactly what the input spells. */
  lemma {:induction false} FixedKeepsText(tokens: seq<string>)
    ensures Concat(Fixed(tokens)) == Concat(tokens)
    decreases |tokens|
  {
    if |tokens| == 0 {
    } else if PairAt(tokens, 0) {
      var rest := tokens[2..];
      FixedKeepsText(rest);
      var out := ["'s"] + Fixed(rest);
      assert out[0] == "'s" && out[1..] == Fixed(rest);
      assert tokens[1..][0] == "s" && tokens[1..][1..] == rest;
      calc {
        Concat(tokens);
        "'" + Concat(tokens[1..]);
        "'" + ("s" + Concat(rest));
        "'s" + Concat(rest);
        "'s" + Concat(Fixed(rest));
        Concat(out);
      }
    } else {
      FixedKeepsText(tokens[1..]);
      var out := [tokens[0]] + Fixed(tokens[1..]);
      assert out[0] == tokens[0] && out[1..] == Fixed(tokens[1..]);
    }
  }

  /** The output is never longer than the input, and is strictly shorter
      exactly when the input holds a pair to merge. */
  lemma {:induction false} FixedLength(tokens: seq<string>)
    ensures |Fixed(tokens)| <= |tokens|
    ensures |Fixed(tokens)| == |tokens| <==> NoPair(tokens)
    decreases |tokens|
  {
    if |tokens| == 0 {
    } else if PairAt(tokens, 0) {
      FixedLength(tokens[2..]);
      assert !NoPair(tokens);
    } else {
      var rest := tokens[1..];
      FixedLength(rest);
      if NoPair(tokens) {
        assert NoPair(rest) by {
          forall i | 0 <= i < |rest| ensures !PairAt(rest, i) { assert !PairAt(tokens, i + 1); }
        }
      }
      if NoPair(rest) {
        assert NoPair(tokens) by {
          forall i | 0 <= i < |tokens| ensures !PairAt(tokens, i) {
            if i > 0 { assert !PairAt(rest, i - 1); }
          }
        }
      } else {
        var i :| 0 <= i < |rest| && PairAt(rest, i);
        assert rest[i] == tokens[i + 1] && rest[i + 1] == tokens[i + 2];
        assert PairAt(tokens, i + 1);
      }
    }
  }

  /** A list with nothing to merge comes back unchanged. */
  lemma {:induction false} FixedIdentity(tokens: seq<string>)
    requires NoPair(tokens)
    ensures Fixed(tokens) == tokens
    decreases |tokens|
  {
    if |tokens| > 0 {
      assert !PairAt(tokens, 0);
      var rest := tokens[1..];
      assert NoPair(rest) by {
        forall i | 0 <= i < |rest| ensures !PairAt(rest, i) { assert !PairAt(tokens, i + 1); }
      }
      FixedIdentity(rest);
    }
  }

  /** No `'` token is ever left directly before an `s` token. */
  lemma {:induction false} FixedHasNoPair(tokens: seq<string>)
    ensures NoPair(Fixed(tokens))
    decreases |tokens|
  {
    if |tokens| == 0 {
    } else if PairAt(tokens, 0) {
      var rest := Fixed(tokens[2..]);
      FixedHasNoPair(tokens[2..]);
      var out := ["'s"] + rest;
      forall i | 0 <= i < |out| ensures !PairAt(out, i) {
        if i > 0 && PairAt(out, i) { assert PairAt(rest, i - 1); }
      }
    } else {
      var tail := tokens[1..];
      var rest := Fixed(tail);
      FixedHasNoPair(tail);
      var out := [tokens[0]] + rest;
      if |tail| > 0 {
        FixedHead(tail);
        assert rest[0] == "'s" || rest[0] == tail[0];
        assert tokens[0] == "'" ==> tail[0] != "s";
      }
      forall i | 0 <= i < |out| ensures !PairAt(out, i) {
        if i > 0 && PairAt(out, i) { assert PairAt(rest, i - 1); }
      }
    }
  }

  /** Applying the rewrite twice gives what applying it once gives. */
  lemma FixedIdempotent(tokens: seq<string>)
    ensures Fixed(Fixed(tokens)) == Fixed(tokens)
  {
    FixedHasNoPair(tokens);
    FixedIdentity(Fixed(tokens));
  }
}
