/** The token-pattern validator (jsonparser/parser/parser.go). */
module Parser {
  import opened Lexer

  /** The four tokens the validator checks at position `i`: a lone quote,
      anything but a closing brace, a colon and a lone quote. */
  predicate PairAt(tokens: seq<string>, i: nat)
  {
    i + 3 < |tokens| && tokens[i] == "\"" && tokens[i + 1] != "}" && tokens[i + 2] == ":" && tokens[i + 3] == "\""
  }

  /** What `SimpleParser.Parse` accepts: at least two tokens, "{" first,
      "}" last, and the pattern at every position 1, 5, 9, ... before the
      last token. */
  predicate Accepts(tokens: seq<string>)
  {
    && |tokens| >= 2 && tokens[0] == "{" && tokens[|tokens| - 1] == "}"
    && forall i: nat :: 1 <= i < |tokens| - 1 && i % 4 == 1 ==> PairAt(tokens, i)
  }

  /** `SimpleParser.Parse`: the guard, then a loop stepping by four with an
      early return. */
  method Parse(tokens: seq<string>) returns (ok: bool)
    ensures ok == Accepts(tokens)
  {
    if |tokens| < 2 || tokens[0] != "{" || tokens[|tokens| - 1] != "}" {
      return false;
    }
    var i := 1;
    while i < |tokens| - 1
      invariant i % 4 == 1 && 1 <= i <= |tokens| - 1
      invariant forall j: nat :: 1 <= j < i && j % 4 == 1 ==> PairAt(tokens, j)
    {
      if i + 3 >= |tokens| || tokens[i] != "\"" || tokens[i + 1] == "}" || tokens[i + 2] != ":" || tokens[i + 3] != "\"" {
        assert !PairAt(tokens, i);
        return false;
      }
      i := i + 4;
    }
    return true;
  }

  /** In an accepted list, a checked group ends before the closing brace. */
  lemma GroupBeforeBrace(tokens: seq<string>, i: nat)
    requires Accepts(tokens) && i % 4 == 1 && 1 <= i
    ensures i < |tokens| - 1 ==> i + 4 <= |tokens| - 1
  {
    if i < |tokens| - 1 {
      assert PairAt(tokens, i);
    }
  }

  /** An accepted list is the two braces around whole groups of four. */
  lemma AcceptedLength(tokens: seq<string>)
    ensures Accepts(tokens) ==> (|tokens| - 2) % 4 == 0
  {
    if Accepts(tokens) {
      var n := |tokens|;
      GroupBeforeBrace(tokens, 1 + 4 * ((n - 2) / 4));
    }
  }

  /** Fewer than two tokens, or a wrong first or last token, is rejected;
      this covers every one-element list. */
  lemma RejectsWithoutBraces(tokens: seq<string>)
    requires |tokens| < 2 || tokens[0] != "{" || tokens[|tokens| - 1] != "}"
    ensures !Accepts(tokens)
  {
  }

  /** The validator's own vectors: "{" "}" is accepted; the empty list and
      one-element lists are rejected; groups of a lone quote, a key, a
      colon and a lone quote are accepted. */
  lemma ParseVectors(one: string, key: string)
    requires key == "key"
    ensures Accepts(["{", "}"])
    ensures !Accepts([])
    ensures !Accepts([one])
    ensures Accepts(["{", "\"", key, ":", "\"", "}"])
    ensures !Accepts(["{", "\"", key, ":", "\"", ",", "}"])
  {
    assert forall i: nat :: 1 <= i < 5 && i % 4 == 1 ==> i == 1;
    var t := ["{", "\"", key, ":", "\"", ",", "}"];
    AcceptedLength(t);
  }

  // ---------------------------------------------------------------------
  // The validator behind the lexer
  // ---------------------------------------------------------------------

  /** A string token as the lexer emits it: quotes at both ends. */
  predicate IsString(token: string) { |token| >= 2 && token[0] == '"' && token[|token| - 1] == '"' }

  /** The lexer emits an object with members as one token more than a
      multiple of four, so the validator never accepts it. */
  lemma PipelineRejectsMembers(pairs: seq<(string, string)>)
    requires PlainPairs(pairs) && pairs != []
    ensures !Accepts(Tokens(Render(pairs)))
  {
    RenderTokens(pairs);
    var t := Tokens(Render(pairs));
    assert |t| == 4 * |pairs| + 1;
    AcceptedLength(t);
  }

  /** {"key":"value"} is valid JSON, and the validator rejects its tokens. */
  lemma PipelineRejectsVector(key: string, value: string)
    requires key == "key" && value == "value"
    ensures !Accepts(Tokens(Render([(key, value)])))
  {
    PipelineRejectsMembers([(key, value)]);
  }

  /** The member groups as intended: a string key, a colon, a string value
      and a comma, except that the last group ends with the closing brace. */
  predicate MemberAt(tokens: seq<string>, i: nat)
  {
    && i + 3 < |tokens| && IsString(tokens[i]) && tokens[i + 1] == ":" && IsString(tokens[i + 2])
    && tokens[i + 3] == (if i + 3 == |tokens| - 1 then "}" else ",")
  }

  /** The corrected validator: the braces around no member, or around
      members each of four tokens but the last of three. */
  predicate AcceptsObject(tokens: seq<string>)
  {
    && |tokens| >= 2 && tokens[0] == "{" && tokens[|tokens| - 1] == "}"
    && (|tokens| == 2 || |tokens| % 4 == 1)
    && forall i: nat :: 1 <= i < |tokens| - 1 && i % 4 == 1 ==> MemberAt(tokens, i)
  }

  lemma PlainQuoted(w: string)
    ensures IsString(Quote(w))
  {
  }

  lemma {:induction false} MemberTokensAt(pairs: seq<(string, string)>, i: nat)
    requires pairs != [] && i % 4 == 0 && i < |MemberTokens(pairs)|
    ensures IsString(MemberTokens(pairs)[i]) && MemberTokens(pairs)[i + 1] == ":"
    ensures IsString(MemberTokens(pairs)[i + 2])
    ensures i + 3 < |MemberTokens(pairs)| ==> MemberTokens(pairs)[i + 3] == ","
    decreases |pairs|
  {
    var t := MemberTokens(pairs);
    var n := |pairs|;
    if n == 1 {
      PlainQuoted(pairs[0].0);
      PlainQuoted(pairs[0].1);
    } else {
      var init := MemberTokens(pairs[..n - 1]);
      assert t == init + [","] + [Quote(pairs[n - 1].0), ":", Quote(pairs[n - 1].1)];
      if i < |init| {
        MemberTokensAt(pairs[..n - 1], i);
      } else {
        assert i == |init| + 1;
        PlainQuoted(pairs[n - 1].0);
        PlainQuoted(pairs[n - 1].1);
      }
    }
  }

  /** With the corrected validator, the lexer's tokens of every object with
      string keys and values are accepted. */
  lemma PipelineAcceptsObject(pairs: seq<(string, string)>)
    requires PlainPairs(pairs)
    ensures AcceptsObject(Tokens(Render(pairs)))
  {
    RenderTokens(pairs);
    var m := MemberTokens(pairs);
    var t := ["{"] + m + ["}"];
    forall i: nat | 1 <= i < |t| - 1 && i % 4 == 1
      ensures MemberAt(t, i)
    {
      MemberTokensAt(pairs, i - 1);
      assert t[i] == m[i - 1] && t[i + 1] == m[i] && t[i + 2] == m[i + 1];
      if i + 2 < |m| {
        assert t[i + 3] == m[i + 2];
      }
    }
  }

  /** The corrected validator still accepts "{" "}" and rejects the two
      malformed objects of the validator's vectors. */
  lemma ObjectVectors(key: string, value: string, key2: string)
    requires key == "key" && value == "value" && key2 == "key2"
    ensures AcceptsObject(["{", "}"])
    ensures !AcceptsObject(Tokens(['{'] + PairText(key, value) + [','] + ['}']))
    ensures !AcceptsObject(Tokens(['{'] + PairText(key, value) + [','] + key2 + [':'] + Quote(value) + ['}']))
  {
    TrailingComma(key, value);
    UnquotedKey(key, value, key2);
    var t := ["{", Quote(key), ":", Quote(value), ",", key2, ":", Quote(value), "}"];
    assert !MemberAt(t, 5);
  }
}
