/** The JSON tokenizer (jsonparser/lexer/lexer.go). The input is the
    sequence of runes that Go's `range` over the string yields. */
module Lexer {

  predicate IsWhitespace(c: char) { c == ' ' || c == '\t' || c == '\n' || c == '\r' }

  /** The characters that stand alone as a token outside a string. */
  predicate IsStructural(c: char) { c == '{' || c == '}' || c == ',' || c == ':' }

  /** The lexer's variables between two runes: the tokens emitted so far,
      the pending token and whether an odd number of quotes was read. */
  datatype LexState = LexState(tokens: seq<string>, current: string, inString: bool)

  const START := LexState([], "", false)

  /** The emitted tokens once the pending token, if any, is appended. */
  function Flush(tokens: seq<string>, current: string): (r: seq<string>)
    ensures current == "" ==> r == tokens
    ensures current != "" ==> r == tokens + [current]
  {
    if current == "" then tokens else tokens + [current]
  }

  /** One iteration of the rune loop. */
  function Step(st: LexState, c: char): LexState
  {
    if IsStructural(c) then
      if st.inString then LexState(st.tokens, st.current + [c], true)
      else LexState(Flush(st.tokens, st.current) + [[c]], "", false)
    else if c == '"' then
      if st.inString then LexState(st.tokens + [st.current + [c]], "", false)
      else LexState(st.tokens, st.current + [c], true)
    else if IsWhitespace(c) then st
    else LexState(st.tokens, st.current + [c], st.inString)
  }

  /** The loop run over a whole input from a given state. */
  function Steps(st: LexState, s: string): LexState
    decreases |s|
  {
    if s == [] then st else Steps(Step(st, s[0]), s[1..])
  }

  /** The state after reading `s` from the start. */
  function Run(s: string): LexState { Steps(START, s) }

  /** What `Lex` returns. */
  function Tokens(input: string): seq<string>
  {
    Flush(Run(input).tokens, Run(input).current)
  }

  /** The tokens written one after the other. */
  function Concat(ts: seq<string>): string
    decreases |ts|
  {
    if ts == [] then [] else Concat(ts[..|ts| - 1]) + ts[|ts| - 1]
  }

  /** The input without its whitespace runes. */
  function Strip(s: string): (r: string)
    ensures |r| <= |s|
    decreases |s|
  {
    if s == [] then []
    else if IsWhitespace(s[0]) then Strip(s[1..])
    else [s[0]] + Strip(s[1..])
  }

  /** The number of quote runes. */
  function Quotes(s: string): nat
    decreases |s|
  {
    if s == [] then 0 else (if s[0] == '"' then 1 else 0) + Quotes(s[1..])
  }

  // ---------------------------------------------------------------------
  // The invariant of the rune loop
  // ---------------------------------------------------------------------

  predicate NonEmpty(ts: seq<string>) { forall k :: 0 <= k < |ts| ==> ts[k] != "" }

  /** Inside a string the pending token holds the opening quote. */
  predicate Consistent(st: LexState)
  {
    NonEmpty(st.tokens) && (st.inString ==> '"' in st.current)
  }

  lemma ConcatSnoc(ts: seq<string>, t: string)
    ensures Concat(ts + [t]) == Concat(ts) + t
  {
    assert (ts + [t])[..|ts|] == ts;
  }

  lemma FlushConcat(ts: seq<string>, cur: string)
    ensures Concat(Flush(ts, cur)) == Concat(ts) + cur
  {
    if cur != "" {
      ConcatSnoc(ts, cur);
    }
  }

  /** One step keeps the invariant, adds its rune to the text unless it is
      whitespace, and toggles the flag exactly on a quote. */
  lemma StepInvariant(st: LexState, c: char)
    requires Consistent(st)
    ensures Consistent(Step(st, c))
    ensures Concat(Step(st, c).tokens) + Step(st, c).current
         == Concat(st.tokens) + st.current + (if IsWhitespace(c) then [] else [c])
    ensures Step(st, c).inString == (st.inString != (c == '"'))
  {
    var r := Step(st, c);
    if IsStructural(c) && !st.inString {
      FlushConcat(st.tokens, st.current);
      ConcatSnoc(Flush(st.tokens, st.current), [c]);
    } else if c == '"' && st.inString {
      ConcatSnoc(st.tokens, st.current + [c]);
      assert Concat(st.tokens) + (st.current + [c]) == Concat(st.tokens) + st.current + [c];
    } else if !IsWhitespace(c) {
      assert Concat(st.tokens) + (st.current + [c]) == Concat(st.tokens) + st.current + [c];
      assert '"' in st.current ==> '"' in st.current + [c];
    }
  }

  /** The loop invariant over any input: the emitted tokens and the pending
      one spell the stripped input, no emitted token is empty, and the flag
      says whether an odd number of quotes was read. */
  lemma {:induction false} StepsInvariant(st: LexState, s: string)
    requires Consistent(st)
    ensures Consistent(Steps(st, s))
    ensures Concat(Steps(st, s).tokens) + Steps(st, s).current == Concat(st.tokens) + st.current + Strip(s)
    ensures Steps(st, s).inString == (st.inString != (Quotes(s) % 2 == 1))
    decreases |s|
  {
    if s != [] {
      StepInvariant(st, s[0]);
      StepsInvariant(Step(st, s[0]), s[1..]);
      StripCons(s);
    }
  }

  lemma StripCons(s: string)
    requires s != []
    ensures Strip(s) == (if IsWhitespace(s[0]) then [] else [s[0]]) + Strip(s[1..])
  {
  }

  /** Running over `p + q` is running over `p` and then over `q`. */
  lemma {:induction false} StepsAppend(st: LexState, p: string, q: string)
    ensures Steps(st, p + q) == Steps(Steps(st, p), q)
    decreases |p|
  {
    if p == [] {
      assert p + q == q;
    } else {
      assert (p + q)[1..] == p[1..] + q;
      StepsAppend(Step(st, p[0]), p[1..], q);
    }
  }

  lemma StepsOne(st: LexState, c: char)
    ensures Steps(st, [c]) == Step(st, c)
  {
    assert [c][1..] == [];
  }

  /** Reading one more rune is one more step. */
  lemma RunSnoc(p: string, c: char)
    ensures Run(p + [c]) == Step(Run(p), c)
  {
    StepsAppend(START, p, [c]);
    StepsOne(Run(p), c);
  }

  // ---------------------------------------------------------------------
  // What the tokens are
  // ---------------------------------------------------------------------

  /** The tokens spell the input with ' ', '\t', '\n' and '\r' removed,
      inside strings too. */
  lemma TokensSpellInput(input: string)
    ensures Concat(Tokens(input)) == Strip(input)
  {
    StepsInvariant(START, input);
    FlushConcat(Run(input).tokens, Run(input).current);
  }

  /** No token is the empty string. */
  lemma TokensNonEmpty(input: string)
    ensures forall k :: 0 <= k < |Tokens(input)| ==> Tokens(input)[k] != ""
  {
    StepsInvariant(START, input);
  }

  /** The empty input has no token. */
  lemma TokensOfEmpty()
    ensures Tokens([]) == []
  {
  }

  /** An input with an odd number of quotes ends in an unterminated string,
      which is emitted as the last token. */
  lemma UnterminatedString(input: string)
    requires Quotes(input) % 2 == 1
    ensures |Tokens(input)| >= 1
    ensures Tokens(input)[|Tokens(input)| - 1] == Run(input).current
    ensures '"' in Tokens(input)[|Tokens(input)| - 1]
  {
    StepsInvariant(START, input);
  }

  /** Outside a string (an even number of quotes read), a structural rune
      flushes the pending token and is a token of its own. */
  lemma StructuralOutsideString(p: string, c: char)
    requires IsStructural(c) && Quotes(p) % 2 == 0
    ensures Run(p + [c]) == LexState(Flush(Run(p).tokens, Run(p).current) + [[c]], "", false)
  {
    StepsInvariant(START, p);
    RunSnoc(p, c);
  }

  /** Inside a string a structural rune joins the pending token. */
  lemma StructuralInsideString(p: string, c: char)
    requires IsStructural(c) && Quotes(p) % 2 == 1
    ensures Run(p + [c]) == LexState(Run(p).tokens, Run(p).current + [c], true)
  {
    StepsInvariant(START, p);
    RunSnoc(p, c);
  }

  /** An opening quote joins the pending token, whatever it holds; a
      closing quote emits the pending token with both quotes. */
  lemma QuoteToggles(p: string)
    ensures Quotes(p) % 2 == 0 ==> Run(p + ['"']) == LexState(Run(p).tokens, Run(p).current + ['"'], true)
    ensures Quotes(p) % 2 == 1 ==> Run(p + ['"']) == LexState(Run(p).tokens + [Run(p).current + ['"']], "", false)
  {
    StepsInvariant(START, p);
    RunSnoc(p, '"');
  }

  /** Whitespace changes nothing. */
  lemma WhitespaceSkipped(p: string, c: char)
    requires IsWhitespace(c)
    ensures Run(p + [c]) == Run(p)
  {
    RunSnoc(p, c);
  }

  /** Any other rune joins the pending token. */
  lemma OtherJoins(p: string, c: char)
    requires !IsStructural(c) && c != '"' && !IsWhitespace(c)
    ensures Run(p + [c]) == LexState(Run(p).tokens, Run(p).current + [c], Run(p).inString)
  {
    RunSnoc(p, c);
  }

  // ---------------------------------------------------------------------
  // The lexer
  // ---------------------------------------------------------------------

  /** `SimpleLexer.Lex`: one pass over the runes with a pending token and
      the in-string flag. */
  method Lex(input: string) returns (tokens: seq<string>)
    ensures tokens == Tokens(input)
  {
    tokens := [];
    var currentToken: string := "";
    var inString := false;
    var i := 0;
    while i < |input|
      invariant 0 <= i <= |input|
      invariant Run(input[..i]) == LexState(tokens, currentToken, inString)
    {
      var c := input[i];
      assert input[..i + 1] == input[..i] + [c];
      RunSnoc(input[..i], c);
      if c == '{' || c == '}' || c == ',' {
        if !inString {
          if currentToken != "" {
            tokens := tokens + [currentToken];
            currentToken := "";
          }
          tokens := tokens + [[c]];
        } else {
          currentToken := currentToken + [c];
        }
      } else if c == '"' {
        inString := !inString;
        currentToken := currentToken + [c];
        if !inString {
          tokens := tokens + [currentToken];
          currentToken := "";
        }
      } else if c == ':' {
        if !inString {
          if currentToken != "" {
            tokens := tokens + [currentToken];
            currentToken := "";
          }
          tokens := tokens + [[c]];
        } else {
          currentToken := currentToken + [c];
        }
      } else if c == ' ' || c == '\t' || c == '\n' || c == '\r' {
      } else {
        currentToken := currentToken + [c];
      }
      i := i + 1;
    }
    assert input[..i] == input;
    if currentToken != "" {
      tokens := tokens + [currentToken];
    }
  }

  // ---------------------------------------------------------------------
  // Objects with string keys and values
  // ---------------------------------------------------------------------

  function Quote(w: string): string { ['"'] + w + ['"'] }

  /** A key or value the lexer keeps in one piece: no quote and no
      whitespace (structural runes are allowed, being inside a string). */
  predicate Plain(w: string) { forall k :: 0 <= k < |w| ==> w[k] != '"' && !IsWhitespace(w[k]) }

  predicate PlainPairs(pairs: seq<(string, string)>)
  {
    forall k :: 0 <= k < |pairs| ==> Plain(pairs[k].0) && Plain(pairs[k].1)
  }

  /** `"k":"v"` */
  function PairText(k: string, v: string): string { Quote(k) + [':'] + Quote(v) }

  /** The members of an object, separated by commas. */
  function Members(pairs: seq<(string, string)>): string
    decreases |pairs|
  {
    if pairs == [] then []
    else if |pairs| == 1 then PairText(pairs[0].0, pairs[0].1)
    else Members(pairs[..|pairs| - 1]) + [','] + PairText(pairs[|pairs| - 1].0, pairs[|pairs| - 1].1)
  }

  /** The compact text of a JSON object with string keys and values. */
  function Render(pairs: seq<(string, string)>): string { ['{'] + Members(pairs) + ['}'] }

  /** The tokens such an object is made of. */
  function MemberTokens(pairs: seq<(string, string)>): (r: seq<string>)
    ensures pairs != [] ==> |r| == 4 * |pairs| - 1
    decreases |pairs|
  {
    if pairs == [] then []
    else if |pairs| == 1 then [Quote(pairs[0].0), ":", Quote(pairs[0].1)]
    else MemberTokens(pairs[..|pairs| - 1]) + [","] + [Quote(pairs[|pairs| - 1].0), ":", Quote(pairs[|pairs| - 1].1)]
  }

  /** A state between tokens, outside any string. */
  function Clean(ts: seq<string>): LexState { LexState(ts, "", false) }

  lemma {:induction false} InsideString(ts: seq<string>, cur: string, w: string)
    requires Plain(w)
    ensures Steps(LexState(ts, cur, true), w) == LexState(ts, cur + w, true)
    decreases |w|
  {
    if w == [] {
      assert cur + w == cur;
    } else {
      assert Plain(w[1..]);
      InsideString(ts, cur + [w[0]], w[1..]);
      assert cur + [w[0]] + w[1..] == cur + w;
    }
  }

  lemma QuotedToken(ts: seq<string>, w: string)
    requires Plain(w)
    ensures Steps(Clean(ts), Quote(w)) == Clean(ts + [Quote(w)])
  {
    StepsAppend(Clean(ts), ['"'], w + ['"']);
    assert Quote(w) == ['"'] + (w + ['"']);
    StepsOne(Clean(ts), '"');
    assert "" + ['"'] == ['"'];
    assert Steps(Clean(ts), ['"']) == LexState(ts, ['"'], true);
    StepsAppend(LexState(ts, ['"'], true), w, ['"']);
    InsideString(ts, ['"'], w);
    StepsOne(LexState(ts, ['"'] + w, true), '"');
  }

  lemma StructuralToken(ts: seq<string>, c: char)
    requires IsStructural(c)
    ensures Steps(Clean(ts), [c]) == Clean(ts + [[c]])
  {
    StepsOne(Clean(ts), c);
  }

  lemma PairTokens(ts: seq<string>, k: string, v: string)
    requires Plain(k) && Plain(v)
    ensures Steps(Clean(ts), PairText(k, v)) == Clean(ts + [Quote(k), ":", Quote(v)])
  {
    StepsAppend(Clean(ts), Quote(k) + [':'], Quote(v));
    StepsAppend(Clean(ts), Quote(k), [':']);
    QuotedToken(ts, k);
    StructuralToken(ts + [Quote(k)], ':');
    QuotedToken(ts + [Quote(k)] + [":"], v);
    assert ts + [Quote(k)] + [":"] + [Quote(v)] == ts + [Quote(k), ":", Quote(v)];
  }

  lemma {:induction false} MembersTokens(ts: seq<string>, pairs: seq<(string, string)>)
    requires PlainPairs(pairs)
    ensures Steps(Clean(ts), Members(pairs)) == Clean(ts + MemberTokens(pairs))
    decreases |pairs|
  {
    if pairs == [] {
      assert ts + [] == ts;
    } else if |pairs| == 1 {
      PairTokens(ts, pairs[0].0, pairs[0].1);
    } else {
      var init, last := pairs[..|pairs| - 1], pairs[|pairs| - 1];
      assert PlainPairs(init) by {
        forall k | 0 <= k < |init|
          ensures Plain(init[k].0) && Plain(init[k].1)
        {
          assert init[k] == pairs[k];
        }
      }
      MembersTokens(ts, init);
      var mid := ts + MemberTokens(init);
      StepsAppend(Clean(ts), Members(init) + [','], PairText(last.0, last.1));
      StepsAppend(Clean(ts), Members(init), [',']);
      StructuralToken(mid, ',');
      PairTokens(mid + [","], last.0, last.1);
      assert mid + [","] + [Quote(last.0), ":", Quote(last.1)] == ts + MemberTokens(pairs);
    }
  }

  /** The lexer splits a compact object into its brace, key, colon, value
      and comma tokens. */
  lemma RenderTokens(pairs: seq<(string, string)>)
    requires PlainPairs(pairs)
    ensures Tokens(Render(pairs)) == ["{"] + MemberTokens(pairs) + ["}"]
  {
    var body := ["{"] + MemberTokens(pairs);
    StepsAppend(START, ['{'] + Members(pairs), ['}']);
    StepsAppend(START, ['{'], Members(pairs));
    StructuralToken([], '{');
    assert START == Clean([]) && [] + [['{']] == ["{"];
    MembersTokens(["{"], pairs);
    assert Steps(START, ['{'] + Members(pairs)) == Clean(body);
    StructuralToken(body, '}');
    assert Run(Render(pairs)) == Clean(body + ["}"]);
  }

  /** A bare word: no quote, no whitespace and no structural rune. */
  predicate Bare(w: string)
  {
    forall k :: 0 <= k < |w| ==> w[k] != '"' && !IsWhitespace(w[k]) && !IsStructural(w[k])
  }

  lemma {:induction false} OutsideString(ts: seq<string>, cur: string, w: string)
    requires Bare(w)
    ensures Steps(LexState(ts, cur, false), w) == LexState(ts, cur + w, false)
    decreases |w|
  {
    if w == [] {
      assert cur + w == cur;
    } else {
      assert Bare(w[1..]);
      OutsideString(ts, cur + [w[0]], w[1..]);
      assert cur + [w[0]] + w[1..] == cur + w;
    }
  }

  /** Outside a string a bare word followed by a structural rune becomes
      two tokens. */
  lemma BareToken(ts: seq<string>, w: string, c: char)
    requires Bare(w) && w != [] && IsStructural(c)
    ensures Steps(Clean(ts), w + [c]) == Clean(ts + [w, [c]])
  {
    StepsAppend(Clean(ts), w, [c]);
    OutsideString(ts, "", w);
    assert "" + w == w;
    StepsOne(LexState(ts, w, false), c);
    assert ts + [w] + [[c]] == ts + [w, [c]];
  }

  /** The lexer's vectors: "{}", {"key":"value"} and
      {"key":"value","key2":"value"}, and the two malformed objects
      {"key":"value",} and {"key":"value",key2:"value"}, whose tokens the
      lexer still produces faithfully. */
  lemma LexVectors(key: string, value: string, key2: string)
    requires key == "key" && value == "value" && key2 == "key2"
    ensures Tokens("{}") == ["{", "}"]
    ensures Tokens(Render([(key, value)])) == ["{", Quote(key), ":", Quote(value), "}"]
    ensures Tokens(Render([(key, value), (key2, value)]))
         == ["{", Quote(key), ":", Quote(value), ",", Quote(key2), ":", Quote(value), "}"]
    ensures Tokens(['{'] + PairText(key, value) + [','] + ['}'])
         == ["{", Quote(key), ":", Quote(value), ",", "}"]
    ensures Tokens(['{'] + PairText(key, value) + [','] + key2 + [':'] + Quote(value) + ['}'])
         == ["{", Quote(key), ":", Quote(value), ",", key2, ":", Quote(value), "}"]
  {
    EmptyObjectVector();
    OnePairVector(key, value);
    TwoPairVector(key, value, key2);
    TrailingComma(key, value);
    UnquotedKey(key, value, key2);
  }

  lemma EmptyObjectVector()
    ensures Tokens("{}") == ["{", "}"]
  {
    RenderTokens([]);
    assert Render([]) == "{}";
  }

  lemma OnePairVector(key: string, value: string)
    requires Plain(key) && Plain(value)
    ensures Tokens(Render([(key, value)])) == ["{", Quote(key), ":", Quote(value), "}"]
  {
    RenderTokens([(key, value)]);
  }

  lemma TwoPairVector(key: string, value: string, key2: string)
    requires Plain(key) && Plain(value) && Plain(key2)
    ensures Tokens(Render([(key, value), (key2, value)]))
         == ["{", Quote(key), ":", Quote(value), ",", Quote(key2), ":", Quote(value), "}"]
  {
    RenderTokens([(key, value), (key2, value)]);
    assert [(key, value), (key2, value)][..1] == [(key, value)];
  }

  lemma TrailingComma(key: string, value: string)
    requires Plain(key) && Plain(value)
    ensures Tokens(['{'] + PairText(key, value) + [','] + ['}'])
         == ["{", Quote(key), ":", Quote(value), ",", "}"]
  {
    var s := ['{'] + PairText(key, value) + [','] + ['}'];
    StepsAppend(START, ['{'] + PairText(key, value) + [','], ['}']);
    StepsAppend(START, ['{'] + PairText(key, value), [',']);
    StepsAppend(START, ['{'], PairText(key, value));
    StructuralToken([], '{');
    assert START == Clean([]) && [] + [['{']] == ["{"];
    PairTokens(["{"], key, value);
    var a := ["{"] + [Quote(key), ":", Quote(value)];
    StructuralToken(a, ',');
    StructuralToken(a + [","], '}');
    assert Run(s) == Clean(a + [","] + ["}"]);
  }

  lemma UnquotedKey(key: string, value: string, key2: string)
    requires Plain(key) && Plain(value) && Bare(key2) && key2 != []
    ensures Tokens(['{'] + PairText(key, value) + [','] + key2 + [':'] + Quote(value) + ['}'])
         == ["{", Quote(key), ":", Quote(value), ",", key2, ":", Quote(value), "}"]
  {
    var p := ['{'] + PairText(key, value) + [','];
    var s := p + key2 + [':'] + Quote(value) + ['}'];
    StepsAppend(START, ['{'] + PairText(key, value), [',']);
    StepsAppend(START, ['{'], PairText(key, value));
    StructuralToken([], '{');
    assert START == Clean([]) && [] + [['{']] == ["{"];
    PairTokens(["{"], key, value);
    var a := ["{"] + [Quote(key), ":", Quote(value)] + [","];
    StructuralToken(a[..|a| - 1], ',');
    assert Run(p) == Clean(a);
    assert s == p + (key2 + [':']) + Quote(value) + ['}'];
    StepsAppend(START, p + (key2 + [':']) + Quote(value), ['}']);
    StepsAppend(START, p + (key2 + [':']), Quote(value));
    StepsAppend(START, p, key2 + [':']);
    BareToken(a, key2, ':');
    QuotedToken(a + [key2, ":"], value);
    StructuralToken(a + [key2, ":"] + [Quote(value)], '}');
    assert Run(s) == Clean(a + [key2, ":"] + [Quote(value)] + ["}"]);
  }
}
