/** The counters of the word-count tool (wctool/file/file.go): lines,
    words and characters of a file's contents. */
module WordCount {
  import opened Text

  // ---------------------------------------------------------------------
  // Lines
  // ---------------------------------------------------------------------

  /** The number of lines: the pieces between newlines, not counting the
      empty piece that follows a final newline (or makes up the empty
      file). */
  function Lines(s: seq<byte>): nat
  {
    var pieces := Split(s, NEWLINE);
    |pieces| - (if pieces[|pieces| - 1] == [] then 1 else 0)
  }

  /** `CountLines`: one for each newline byte, plus one for a last line
      that is not ended by a newline. */
  method CountLines(fileContents: seq<byte>) returns (count: int)
    ensures count == Lines(fileContents)
  {
    count := 0;
    for i := 0 to |fileContents|
      invariant count == Count(fileContents[..i], NEWLINE)
    {
      CountSnoc(fileContents[..i], fileContents[i], NEWLINE);
      assert fileContents[..i + 1] == fileContents[..i] + [fileContents[i]];
      if fileContents[i] == NEWLINE {
        count := count + 1;
      }
    }
    assert fileContents[..|fileContents|] == fileContents;
    if |fileContents| > 0 && fileContents[|fileContents| - 1] != NEWLINE {
      count := count + 1;
    }
    LinesByNewlines(fileContents);
  }

  /** The lines are the newline bytes, plus one for a last line without
      its newline. */
  lemma LinesByNewlines(s: seq<byte>)
    ensures Lines(s) == Count(s, NEWLINE) + (if s != [] && s[|s| - 1] != NEWLINE then 1 else 0)
  {
    SplitLastEmpty(s, NEWLINE);
  }

  /** A file has no more lines than bytes, and none exactly when it is empty. */
  lemma LinesBound(s: seq<byte>)
    ensures Lines(s) <= |s|
    ensures (Lines(s) == 0) == (s == [])
  {
    SplitLastEmpty(s, NEWLINE);
    if s != [] && s[|s| - 1] != NEWLINE {
      CountSnoc(s[..|s| - 1], s[|s| - 1], NEWLINE);
      assert s == s[..|s| - 1] + [s[|s| - 1]];
    }
    if s != [] && s[|s| - 1] == NEWLINE {
      CountPositive(s, NEWLINE);
    }
  }

  /** Lines written one after another, each ended by a newline, count
      as many lines as there are of them. */
  lemma {:induction false} LinesOfLines(ls: seq<seq<byte>>)
    requires forall k :: 0 <= k < |ls| ==> NEWLINE !in ls[k]
    ensures Lines(Join(Terminated(ls))) == |ls|
    decreases |ls|
  {
    if ls != [] {
      LinesOfLines(ls[1..]);
      var rest := Join(Terminated(ls[1..]));
      assert Terminated(ls)[1..] == Terminated(ls[1..]);
      assert Join(Terminated(ls)) == ls[0] + [NEWLINE] + rest;
      SplitCons(ls[0], NEWLINE, rest);
      SplitLastEmpty(rest, NEWLINE);
      SplitLastEmpty(Join(Terminated(ls)), NEWLINE);
    }
  }

  /** Each line followed by its newline. */
  function Terminated(ls: seq<seq<byte>>): (r: seq<seq<byte>>)
    ensures |r| == |ls| && forall k :: 0 <= k < |ls| ==> r[k] == ls[k] + [NEWLINE]
  {
    if ls == [] then [] else [ls[0] + [NEWLINE]] + Terminated(ls[1..])
  }

  // ---------------------------------------------------------------------
  // Words
  // ---------------------------------------------------------------------

  /** `unicode.IsSpace` of a byte widened to a rune: '\t', '\n', '\v',
      '\f', '\r', ' ', U+0085 (NEL) and U+00A0 (NBSP). */
  predicate IsSpace(b: byte)
  {
    b == 9 || b == 10 || b == 11 || b == 12 || b == 13 || b == 32 || b == 0x85 || b == 0xA0
  }

  /** The number of words: the positions where a non-space byte follows a
      space or the start of the input. */
  function Words(s: seq<byte>): nat
    decreases |s|
  {
    if s == [] then 0
    else
      var init, b := s[..|s| - 1], s[|s| - 1];
      Words(init) + (if !IsSpace(b) && (init == [] || IsSpace(init[|init| - 1])) then 1 else 0)
  }

  /** `CountWords`: a word is counted at the space that ends it, and once
      more at the end for a word still open. */
  method CountWords(fileContents: seq<byte>) returns (wordCount: int)
    ensures wordCount == Words(fileContents)
  {
    wordCount := 0;
    var inWord := false;
    for i := 0 to |fileContents|
      invariant inWord == (i > 0 && !IsSpace(fileContents[i - 1]))
      invariant wordCount + (if inWord then 1 else 0) == Words(fileContents[..i])
    {
      var b := fileContents[i];
      assert fileContents[..i + 1][..i] == fileContents[..i];
      if IsSpace(b) {
        if inWord {
          wordCount := wordCount + 1;
          inWord := false;
        }
      } else {
        inWord := true;
      }
    }
    assert fileContents[..|fileContents|] == fileContents;
    if inWord {
      wordCount := wordCount + 1;
    }
  }

  /** Nothing but spaces holds no word. */
  lemma {:induction false} WordsOfSpaces(s: seq<byte>)
    requires forall k :: 0 <= k < |s| ==> IsSpace(s[k])
    ensures Words(s) == 0
    decreases |s|
  {
    if s != [] {
      WordsOfSpaces(s[..|s| - 1]);
    }
  }

  /** A non-empty run without spaces is one word. */
  lemma {:induction false} WordsOfRun(s: seq<byte>)
    requires s != [] && forall k :: 0 <= k < |s| ==> !IsSpace(s[k])
    ensures Words(s) == 1
    decreases |s|
  {
    if |s| > 1 {
      WordsOfRun(s[..|s| - 1]);
    }
  }

  /** A space separates: the words on either side add up. With the two
      facts above, this makes `Words` the number of maximal runs of
      non-space bytes. */
  lemma {:induction false} WordsSeparated(a: seq<byte>, sp: byte, b: seq<byte>)
    requires IsSpace(sp)
    ensures Words(a + [sp] + b) == Words(a) + Words(b)
    decreases |b|
  {
    if b == [] {
      assert (a + [sp])[..|a|] == a;
      assert a + [sp] + b == a + [sp];
    } else {
      var init := b[..|b| - 1];
      WordsSeparated(a, sp, init);
      var s := a + [sp] + b;
      assert s[..|s| - 1] == a + [sp] + init;
    }
  }

  // ---------------------------------------------------------------------
  // Characters
  // ---------------------------------------------------------------------

  /** `CountCharacters`: the length of `bytes.Runes`, one rune per UTF-8
      sequence and one per invalid byte. */
  function CountCharacters(fileContents: seq<byte>): (n: nat)
    ensures n <= |fileContents|
    ensures (n == 0) == (fileContents == [])
  {
    RuneCount(fileContents)
  }

  /** The bytes of a string have as many characters as the string. */
  lemma CharactersOfString(s: string)
    ensures CountCharacters(Utf8String(s)) == |s|
  {
    RuneCountOfUtf8(s);
  }

  /** ASCII bytes are one character each. */
  lemma {:induction false} CharactersOfAscii(s: seq<byte>)
    requires forall k :: 0 <= k < |s| ==> s[k] < 0x80
    ensures CountCharacters(s) == |s|
    decreases |s|
  {
    if s != [] {
      CharactersOfAscii(s[1..]);
    }
  }

  // ---------------------------------------------------------------------
  // Test vectors of wctool/file/file_test.go
  // ---------------------------------------------------------------------

  /** "", "hello\n", "hello\nworld\n" and "hello\nworld" have 0, 1, 2
      and 2 lines. */
  lemma LineVectors(hello: seq<byte>, world: seq<byte>)
    requires hello == [104, 101, 108, 108, 111] && world == [119, 111, 114, 108, 100]
    ensures Lines([]) == 0
    ensures Lines(hello + [NEWLINE]) == 1
    ensures Lines(hello + [NEWLINE] + world + [NEWLINE]) == 2
    ensures Lines(hello + [NEWLINE] + world) == 2
  {
    LinesByNewlines([]);
    NewlineCount(hello);
    NewlineCount(world);
    LinesByNewlines(hello + [NEWLINE]);
    CountAppend(hello, [NEWLINE], NEWLINE);
    LinesByNewlines(hello + [NEWLINE] + world + [NEWLINE]);
    CountAppend(hello + [NEWLINE], world, NEWLINE);
    CountAppend(hello + [NEWLINE] + world, [NEWLINE], NEWLINE);
    LinesByNewlines(hello + [NEWLINE] + world);
  }

  /** A line without newline bytes counts none. */
  lemma NewlineCount(s: seq<byte>)
    requires NEWLINE !in s
    ensures Count(s, NEWLINE) == 0
  {
    CountPositive(s, NEWLINE);
  }

  /** The word-count vectors: "" and "   " have no word, "word" one,
      "multiple words in this sentence" five, and
      "  word1  word2\tword3\n" three. */
  lemma WordVectors(word: seq<byte>, w: seq<seq<byte>>)
    requires word == [119, 111, 114, 100]
    requires |w| == 5 && w[0] == [109, 117, 108, 116, 105, 112, 108, 101] && w[1] == [119, 111, 114, 100, 115]
    requires w[2] == [105, 110] && w[3] == [116, 104, 105, 115] && w[4] == [115, 101, 110, 116, 101, 110, 99, 101]
    ensures Words([]) == 0
    ensures Words([32, 32, 32]) == 0
    ensures Words(word) == 1
    ensures Words(w[0] + [32] + w[1] + [32] + w[2] + [32] + w[3] + [32] + w[4]) == 5
    ensures Words([32, 32] + (word + [49]) + [32, 32] + (word + [50]) + [9] + (word + [51]) + [10]) == 3
  {
    WordsOfSpaces([32, 32, 32]);
    WordsOfRun(word);
    SentenceWords(w);
    MixedWords(word);
  }

  lemma SentenceWords(w: seq<seq<byte>>)
    requires |w| == 5 && w[0] == [109, 117, 108, 116, 105, 112, 108, 101] && w[1] == [119, 111, 114, 100, 115]
    requires w[2] == [105, 110] && w[3] == [116, 104, 105, 115] && w[4] == [115, 101, 110, 116, 101, 110, 99, 101]
    ensures Words(w[0] + [32] + w[1] + [32] + w[2] + [32] + w[3] + [32] + w[4]) == 5
  {
    forall k | 0 <= k < 5
      ensures Words(w[k]) == 1
    {
      WordsOfRun(w[k]);
    }
    WordsSeparated(w[0], 32, w[1]);
    WordsSeparated(w[0] + [32] + w[1], 32, w[2]);
    WordsSeparated(w[0] + [32] + w[1] + [32] + w[2], 32, w[3]);
    WordsSeparated(w[0] + [32] + w[1] + [32] + w[2] + [32] + w[3], 32, w[4]);
  }

  lemma MixedWords(word: seq<byte>)
    requires word == [119, 111, 114, 100]
    ensures Words([32, 32] + (word + [49]) + [32, 32] + (word + [50]) + [9] + (word + [51]) + [10]) == 3
  {
    var w1, w2, w3 := word + [49], word + [50], word + [51];
    WordsOfRun(w1);
    WordsOfRun(w2);
    WordsOfRun(w3);
    var s := [32, 32] + w1 + [32, 32] + w2 + [9] + w3 + [10];
    assert s == [] + [32] + (([] + [32] + w1) + [32] + ([] + [32] + (w2 + [9] + (w3 + [10] + []))));
    WordsSeparated([], 32, w1);
    WordsSeparated(w3, 10, []);
    WordsSeparated(w2, 9, w3 + [10] + []);
    WordsSeparated([], 32, w2 + [9] + (w3 + [10] + []));
    WordsSeparated([] + [32] + w1, 32, [] + [32] + (w2 + [9] + (w3 + [10] + [])));
    WordsSeparated([], 32, ([] + [32] + w1) + [32] + ([] + [32] + (w2 + [9] + (w3 + [10] + []))));
  }

  /** "¡Hola, mundo!" has thirteen characters. */
  lemma CharacterVector()
    ensures CountCharacters(Utf8String("¡Hola, mundo!")) == 13
  {
    CharactersOfString("¡Hola, mundo!");
  }

  /** "ja \n\tjaja \n\tjajaja" has 18 bytes, 3 lines, 3 words and 18
      characters. */
  lemma AllCountsVector(ja: seq<byte>, contents: seq<byte>)
    requires ja == [106, 97]
    requires contents == ja + [32, 10, 9] + (ja + ja) + [32, 10, 9] + (ja + ja + ja)
    ensures |contents| == 18
    ensures Lines(contents) == 3
    ensures Words(contents) == 3
    ensures CountCharacters(contents) == 18
  {
    AllLines(ja + [32], [9] + (ja + ja) + [32], [9] + (ja + ja + ja), contents);
    AllWords(ja, ja + ja, ja + ja + ja, contents);
    AllCharacters(ja, contents);
  }

  lemma AllCharacters(ja: seq<byte>, contents: seq<byte>)
    requires ja == [106, 97]
    requires contents == ja + [32, 10, 9] + (ja + ja) + [32, 10, 9] + (ja + ja + ja)
    ensures CountCharacters(contents) == 18
  {
    assert contents == [106, 97, 32, 10, 9, 106, 97, 106, 97, 32, 10, 9, 106, 97, 106, 97, 106, 97];
    CharactersOfAscii(contents);
  }

  lemma AllLines(p: seq<byte>, q: seq<byte>, r: seq<byte>, contents: seq<byte>)
    requires NEWLINE !in p && NEWLINE !in q && NEWLINE !in r && r != [] && r[|r| - 1] != NEWLINE
    requires contents == p + [NEWLINE] + q + [NEWLINE] + r
    ensures Lines(contents) == 3
  {
    NewlineCount(p);
    NewlineCount(q);
    NewlineCount(r);
    CountAppend(p, [NEWLINE], NEWLINE);
    CountAppend(p + [NEWLINE], q, NEWLINE);
    CountAppend(p + [NEWLINE] + q, [NEWLINE], NEWLINE);
    CountAppend(p + [NEWLINE] + q + [NEWLINE], r, NEWLINE);
    LinesByNewlines(contents);
  }

  lemma AllWords(a: seq<byte>, b: seq<byte>, c: seq<byte>, contents: seq<byte>)
    requires a == [106, 97] && b == a + a && c == a + a + a
    requires contents == a + [32, 10, 9] + b + [32, 10, 9] + c
    ensures Words(contents) == 3
  {
    WordsOfRun(a);
    WordsOfRun(b);
    WordsOfRun(c);
    assert contents == a + [32] + ([] + [10] + ([] + [9] + (b + [32] + ([] + [10] + ([] + [9] + c)))));
    WordsSeparated([], 9, c);
    WordsSeparated([], 10, [] + [9] + c);
    WordsSeparated(b, 32, [] + [10] + ([] + [9] + c));
    WordsSeparated([], 9, b + [32] + ([] + [10] + ([] + [9] + c)));
    WordsSeparated([], 10, [] + [9] + (b + [32] + ([] + [10] + ([] + [9] + c))));
    WordsSeparated(a, 32, [] + [10] + ([] + [9] + (b + [32] + ([] + [10] + ([] + [9] + c)))));
  }
}
