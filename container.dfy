/** The compressed-file container (compress/file/file.go) over in-memory
    bytes: the header that lists the code table between the `HS` and `HE`
    lines, its parser, and the payload that follows it. */
module Container {
  import opened Wrappers
  import opened Text
  import Compression

  /** "HS" and "HE". */
  const HEADER_START: seq<byte> := [72, 83]
  const HEADER_END: seq<byte> := [72, 69]

  // ---------------------------------------------------------------------
  // The header writer
  // ---------------------------------------------------------------------

  /** Lines, each followed by a newline byte. */
  function Lines(ls: seq<seq<byte>>): seq<byte>
  {
    if ls == [] then [] else ls[0] + [NEWLINE] + Lines(ls[1..])
  }

  /** `fmt.Sprintf("%s,%c", code, char)`: the code's bytes, a comma, and
      the symbol written as the UTF-8 encoding of the rune it stands for. */
  function EntryLine(code: string, c: byte): seq<byte>
  {
    Utf8String(code) + [COMMA] + Utf8(c as char)
  }

  /** One entry line per symbol of `order`, in that order. */
  function EntryLines(codes: map<byte, string>, order: seq<byte>): seq<seq<byte>>
    requires forall i :: 0 <= i < |order| ==> order[i] in codes
  {
    if order == [] then []
    else
      var c := order[|order| - 1];
      EntryLines(codes, order[..|order| - 1]) + [EntryLine(codes[c], c)]
  }

  /** The lines of the header: the start marker, the number of entries,
      the entries, the end marker. */
  function HeaderLines(codes: map<byte, string>, order: seq<byte>): seq<seq<byte>>
    requires forall i :: 0 <= i < |order| ==> order[i] in codes
  {
    [HEADER_START, Decimal(|codes|)] + EntryLines(codes, order) + [HEADER_END]
  }

  /** `order` visits every key of the table exactly once, as Go's `range`
      over a map does, in some order. */
  predicate Enumerates(order: seq<byte>, codes: map<byte, string>)
  {
    && (forall i :: 0 <= i < |order| ==> order[i] in codes)
    && (forall c :: c in codes ==> c in order)
    && (forall i, j :: 0 <= i < j < |order| ==> order[i] != order[j])
  }

  lemma {:induction false} LinesSnoc(ls: seq<seq<byte>>, l: seq<byte>)
    ensures Lines(ls + [l]) == Lines(ls) + l + [NEWLINE]
    decreases |ls|
  {
    if ls == [] {
      assert [] + [l] == [l];
      assert Lines([l]) == l + [NEWLINE] + Lines([]);
    } else {
      assert (ls + [l])[1..] == ls[1..] + [l];
      LinesSnoc(ls[1..], l);
    }
  }

  /** `WriteCodeTableOnHeader`: writes the start marker, the count, one
      `code,char` line per entry in the map's iteration order `order`, and
      the end marker, each line ended by a newline. */
  method WriteCodeTableOnHeader(codesTable: map<byte, string>, order: seq<byte>) returns (out: seq<byte>)
    requires Enumerates(order, codesTable)
    ensures out == Lines(HeaderLines(codesTable, order))
  {
    ghost var written: seq<seq<byte>> := [];
    out := [];
    out := WriteLine(out, HEADER_START, written);
    written := written + [HEADER_START];
    out := WriteLine(out, Decimal(|codesTable|), written);
    written := written + [Decimal(|codesTable|)];
    ghost var front := written;
    assert front == [HEADER_START, Decimal(|codesTable|)];
    for i := 0 to |order|
      invariant written == front + EntryLines(codesTable, order[..i])
      invariant out == Lines(written)
    {
      var symbol := order[i];
      var code := codesTable[symbol];
      assert order[..i + 1][..i] == order[..i];
      out := WriteLine(out, Utf8String(code) + [COMMA] + Utf8(symbol as char), written);
      written := written + [EntryLine(code, symbol)];
    }
    assert order[..|order|] == order;
    assert written + [HEADER_END] == HeaderLines(codesTable, order);
    out := WriteLine(out, HEADER_END, written);
  }

  /** `writer.WriteString(line + "\n")`. */
  method WriteLine(out: seq<byte>, line: seq<byte>, ghost written: seq<seq<byte>>) returns (r: seq<byte>)
    requires out == Lines(written)
    ensures r == Lines(written + [line])
  {
    LinesSnoc(written, line);
    r := out + line + [NEWLINE];
  }

  // ---------------------------------------------------------------------
  // The header parser
  // ---------------------------------------------------------------------

  /** Why reading a container fails. `EmptySymbol` and `EndIndexOutOfRange`
      stand for the index-out-of-range panics of an entry line with an
      empty symbol field and of a code count that puts the end marker's
      line before the start of the file. */
  datatype ContainerError =
    | InvalidStartMarker
    | MissingCodeCount
    | InvalidCodeCount
    | InvalidTableFormat
    | EmptySymbol
    | InvalidEndMarker
    | EndIndexOutOfRange
    | EndMarkerNotFound

  /** One entry line: split on ','; it must give exactly two fields, the
      code and a symbol field whose first byte is the symbol. The code's
      bytes are read back one character per byte. */
  function Entry(line: seq<byte>): Result<(string, byte), ContainerError>
  {
    var fields := Split(line, COMMA);
    if |fields| != 2 then Err(InvalidTableFormat)
    else if fields[1] == [] then Err(EmptySymbol)
    else Ok((Latin1(fields[0]), fields[1][0]))
  }

  /** The reverse table read from entry lines, first to last; a later
      line for the same code overwrites an earlier one, and the first bad
      line is the error. */
  function Entries(ls: seq<seq<byte>>): Result<map<string, byte>, ContainerError>
  {
    if ls == [] then Ok(map[])
    else
      match Entries(ls[..|ls| - 1])
      case Err(e) => Err(e)
      case Ok(t) =>
        match Entry(ls[|ls| - 1])
        case Err(e) => Err(e)
        case Ok(p) => Ok(t[p.0 := p.1])
  }

  /** Go's `int` addition on a 64-bit target, for a sum at most three
      past MAX_INT: beyond that it wraps around to the negative end. */
  function Wrap(x: int): int
    requires x <= MAX_INT + 3
  {
    if x > MAX_INT then x - 0x1_0000_0000_0000_0000 else x
  }

  /** Where the entry loop stops: it runs from line 2 while below the
      number of lines minus two. */
  function EntriesEnd(n: nat): nat
  {
    if n >= 4 then n - 2 else 2
  }

  /** `ReadReverseLookupCodesTableFromHeader` on the contents of a file.
      The start marker is checked first, then the count; the entry lines
      are the ones from index 2 to the last two lines, whatever the count;
      only then is line `count + 2` checked for the end marker. */
  function ParseHeader(contents: seq<byte>): Result<map<string, byte>, ContainerError>
  {
    var lines := Split(contents, NEWLINE);
    if lines[0] != HEADER_START then Err(InvalidStartMarker)
    else if |lines| < 2 then Err(MissingCodeCount)
    else
      match Atoi(lines[1])
      case None => Err(InvalidCodeCount)
      case Some(n) =>
        match Entries(lines[2..EntriesEnd(|lines|)])
        case Err(e) => Err(e)
        case Ok(table) => EndMarker(lines, n, table)
  }

  /** The end-marker check on line `n + 2`, after the entries are read.
      Go evaluates `len(lines) < numCodes+3` first and indexes only when
      it is false, so a negative or wrapped index is a panic. */
  function EndMarker(lines: seq<seq<byte>>, n: int, table: map<string, byte>): (r: Result<map<string, byte>, ContainerError>)
    requires MIN_INT <= n <= MAX_INT
    ensures r.Ok? <==> -2 <= n <= MAX_INT - 2 && n + 3 <= |lines| && lines[n + 2] == HEADER_END
    ensures r.Ok? ==> r.value == table
  {
    if |lines| < Wrap(n + 3) then Err(InvalidEndMarker)
    else if !(0 <= Wrap(n + 2) < |lines|) then Err(EndIndexOutOfRange)
    else if lines[Wrap(n + 2)] != HEADER_END then Err(InvalidEndMarker)
    else Ok(table)
  }

  /** What a successful parse means: the start marker, a count `n` that
      is not negative, the end marker on line `n + 2`, and well-formed
      entry lines, whose table is the result. A negative count never
      passes, since lines 0 and 1 are the start marker and the count. */
  lemma ParseHeaderOk(contents: seq<byte>)
    ensures var lines := Split(contents, NEWLINE);
      ParseHeader(contents).Ok? <==>
        && lines[0] == HEADER_START && |lines| >= 2 && Atoi(lines[1]).Some?
        && 0 <= Atoi(lines[1]).value <= MAX_INT - 2
        && Atoi(lines[1]).value + 3 <= |lines|
        && lines[Atoi(lines[1]).value + 2] == HEADER_END
        && Entries(lines[2..EntriesEnd(|lines|)]).Ok?
    ensures ParseHeader(contents).Ok? ==>
      var lines := Split(contents, NEWLINE);
      ParseHeader(contents).value == Entries(lines[2..EntriesEnd(|lines|)]).value
  {
    var lines := Split(contents, NEWLINE);
    if |lines| >= 2 && Atoi(lines[1]).Some? && Atoi(lines[1]).value < 0 {
      var n := Atoi(lines[1]).value;
      if n == -1 {
        assert lines[1][|lines[1]| - 1] != HEADER_END[1];
      }
    }
  }

  /** Once a prefix of the entry lines fails, so do all the lines. */
  lemma {:induction false} EntriesFail(ls: seq<seq<byte>>, k: nat)
    requires k <= |ls| && Entries(ls[..k]).Err?
    ensures Entries(ls) == Entries(ls[..k])
    decreases |ls| - k
  {
    if k < |ls| {
      assert ls[..k + 1][..k] == ls[..k];
      EntriesFail(ls, k + 1);
    } else {
      assert ls[..k] == ls;
    }
  }

  /** One more well-formed entry line adds its pair to the table. */
  lemma EntriesStep(ls: seq<seq<byte>>, k: nat, t: map<string, byte>)
    requires k < |ls| && Entries(ls[..k]) == Ok(t)
    ensures Entry(ls[k]).Ok? ==> Entries(ls[..k + 1]) == Ok(t[Entry(ls[k]).value.0 := Entry(ls[k]).value.1])
    ensures Entry(ls[k]).Err? ==> Entries(ls[..k + 1]) == Err(Entry(ls[k]).error)
  {
    assert ls[..k + 1][..k] == ls[..k];
  }

  /** `ReadReverseLookupCodesTableFromHeader` on the contents of a file:
      the marker and count checks, the entry loop, the end-marker check. */
  method ReadReverseLookupCodesTableFromHeader(contents: seq<byte>) returns (r: Result<map<string, byte>, ContainerError>)
    ensures r == ParseHeader(contents)
  {
    var lines := Split(contents, NEWLINE);
    if |lines| == 0 || lines[0] != HEADER_START {
      return Err(InvalidStartMarker);
    }
    if |lines| < 2 {
      return Err(MissingCodeCount);
    }
    var parsed := Atoi(lines[1]);
    if parsed.None? {
      return Err(InvalidCodeCount);
    }
    var numCodes := parsed.value;
    var entries := ReadEntries(lines);
    if entries.Err? {
      return Err(entries.error);
    }
    var reversedCodesTable := entries.value;
    assert ParseHeader(contents) == EndMarker(lines, numCodes, reversedCodesTable);
    if |lines| < Wrap(numCodes + 3) {
      return Err(InvalidEndMarker);
    }
    if !(0 <= Wrap(numCodes + 2) < |lines|) {
      return Err(EndIndexOutOfRange);
    }
    if lines[Wrap(numCodes + 2)] != HEADER_END {
      return Err(InvalidEndMarker);
    }
    return Ok(reversedCodesTable);
  }

  /** The entry loop of `ReadReverseLookupCodesTableFromHeader`: from
      line 2 while below the number of lines minus two, each line split
      on ',' and stored code to symbol; it returns at the first bad line. */
  method ReadEntries(lines: seq<seq<byte>>) returns (r: Result<map<string, byte>, ContainerError>)
    requires |lines| >= 2
    ensures r == Entries(lines[2..EntriesEnd(|lines|)])
  {
    ghost var entryLines := lines[2..EntriesEnd(|lines|)];
    var reversedCodesTable: map<string, byte> := map[];
    var i := 2;
    while i < |lines| - 2
      invariant 2 <= i <= EntriesEnd(|lines|)
      invariant Entries(entryLines[..i - 2]) == Ok(reversedCodesTable)
      decreases |lines| - i
    {
      assert entryLines[i - 2] == lines[i];
      EntriesStep(entryLines, i - 2, reversedCodesTable);
      var fields := Split(lines[i], COMMA);
      if |fields| != 2 {
        EntriesFail(entryLines, i - 1);
        return Err(InvalidTableFormat);
      }
      if fields[1] == [] {
        EntriesFail(entryLines, i - 1);
        return Err(EmptySymbol);
      }
      var symbol := fields[1][0];
      var code := fields[0];
      assert Entry(lines[i]) == Ok((Latin1(code), symbol));
      reversedCodesTable := reversedCodesTable[Latin1(code) := symbol];
      i := i + 1;
    }
    assert entryLines[..i - 2] == entryLines;
    return Ok(reversedCodesTable);
  }

  // ---------------------------------------------------------------------
  // The payload
  // ---------------------------------------------------------------------

  /** The index of the first line that is the end marker, if any. */
  function FirstEnd(lines: seq<seq<byte>>): (r: Option<nat>)
    ensures r.Some? ==> r.value < |lines| && lines[r.value] == HEADER_END
    ensures r.Some? ==> forall k :: 0 <= k < r.value ==> lines[k] != HEADER_END
    ensures r.None? ==> forall k :: 0 <= k < |lines| ==> lines[k] != HEADER_END
  {
    if lines == [] then None
    else if lines[0] == HEADER_END then Some(0)
    else
      match FirstEnd(lines[1..])
      case None => None
      case Some(i) => Some(i + 1)
  }

  /** `ReadTextAfterHeader`: every line after the first end marker,
      joined with "", or an error when there is no end marker. */
  function Payload(contents: seq<byte>): Result<seq<byte>, ContainerError>
  {
    var lines := Split(contents, NEWLINE);
    match FirstEnd(lines)
    case None => Err(EndMarkerNotFound)
    case Some(i) => Ok(Join(lines[i + 1..]))
  }

  /** The scan of `ReadTextAfterHeader` for the end marker. */
  method ReadTextAfterHeader(contents: seq<byte>) returns (r: Result<seq<byte>, ContainerError>)
    ensures r == Payload(contents)
  {
    var lines := Split(contents, NEWLINE);
    var startIdx := -1;
    var i := 0;
    while i < |lines|
      invariant 0 <= i <= |lines|
      invariant startIdx == -1 || startIdx == i
      invariant startIdx == -1 ==> forall k :: 0 <= k < i ==> lines[k] != HEADER_END
      invariant startIdx != -1 ==> i >= 1 && FirstEnd(lines) == Some(i - 1)
      decreases |lines| - i, if startIdx == -1 then 1 else 0
    {
      if lines[i] == HEADER_END {
        FirstEndAt(lines, i);
        startIdx := i + 1;
        i := i + 1;
        break;
      }
      i := i + 1;
    }
    if startIdx == -1 {
      assert FirstEnd(lines).None?;
      return Err(EndMarkerNotFound);
    }
    return Ok(Join(lines[startIdx..]));
  }

  lemma {:induction false} FirstEndAt(lines: seq<seq<byte>>, i: nat)
    requires i < |lines| && lines[i] == HEADER_END
    requires forall k :: 0 <= k < i ==> lines[k] != HEADER_END
    ensures FirstEnd(lines) == Some(i)
    decreases i
  {
    if i > 0 {
      FirstEndAt(lines[1..], i - 1);
    }
  }

  /** The payload loses its newline bytes: the lines after the marker
      are joined without them. */
  lemma PayloadDropsNewlines(head: seq<seq<byte>>, rest: seq<byte>)
    requires |head| > 0 && head[|head| - 1] == HEADER_END
    requires forall k :: 0 <= k < |head| - 1 ==> head[k] != HEADER_END
    requires forall k :: 0 <= k < |head| ==> NEWLINE !in head[k]
    ensures Payload(Lines(head) + rest) == Ok(Remove(rest, NEWLINE))
  {
    SplitLines(head, rest);
    var lines := head + Split(rest, NEWLINE);
    FirstEndAt(lines, |head| - 1);
    assert lines[|head|..] == Split(rest, NEWLINE);
    JoinSplit(rest, NEWLINE);
  }

  // ---------------------------------------------------------------------
  // The header round trip
  // ---------------------------------------------------------------------

  /** Splitting lines written one per newline gives them back. */
  lemma {:induction false} SplitLines(ls: seq<seq<byte>>, rest: seq<byte>)
    requires forall k :: 0 <= k < |ls| ==> NEWLINE !in ls[k]
    ensures Split(Lines(ls) + rest, NEWLINE) == ls + Split(rest, NEWLINE)
    decreases |ls|
  {
    if ls == [] {
      assert Lines(ls) + rest == rest;
    } else {
      SplitLines(ls[1..], rest);
      assert Lines(ls) + rest == ls[0] + [NEWLINE] + (Lines(ls[1..]) + rest);
      SplitCons(ls[0], NEWLINE, Lines(ls[1..]) + rest);
      assert [ls[0]] + ls[1..] == ls;
    }
  }

  /** The table can be written and read back: every symbol is ASCII and
      neither ',' nor a newline, and every code is ASCII without ',' or
      newline characters. */
  predicate Writable(codes: map<byte, string>)
  {
    forall c :: c in codes ==>
      && c < 0x80 && c != COMMA && c != NEWLINE
      && IsAscii(codes[c]) && ',' !in codes[c] && '\n' !in codes[c]
  }

  /** No two symbols share a code. */
  predicate DistinctCodes(codes: map<byte, string>)
  {
    forall c, d :: c in codes && d in codes && c != d ==> codes[c] != codes[d]
  }

  /** A character that is not ',' is not the byte ',' in UTF-8. */
  lemma {:induction false} Utf8StringAvoids(s: string, x: byte, ch: char)
    requires IsAscii(s) && ch as int == x && ch !in s
    ensures x !in Utf8String(s)
  {
    AsciiUtf8(s);
    forall k | 0 <= k < |Utf8String(s)|
      ensures Utf8String(s)[k] != x
    {
      assert s[k] != ch;
    }
  }

  /** An entry line reads back as its code and symbol. */
  lemma EntryParses(code: string, c: byte)
    requires c < 0x80 && c != COMMA && c != NEWLINE
    requires IsAscii(code) && ',' !in code && '\n' !in code
    ensures Entry(EntryLine(code, c)) == Ok((code, c))
    ensures NEWLINE !in EntryLine(code, c)
  {
    var u := Utf8String(code);
    Utf8StringAvoids(code, COMMA, ',');
    Utf8StringAvoids(code, NEWLINE, '\n');
    AsciiUtf8(code);
    assert Utf8(c as char) == [c];
    SplitCons(u, COMMA, [c]);
    SplitNoSeparator([c], COMMA);
  }

  /** The reverse table of the codes of `order`, later entries overwriting. */
  function InverseOf(codes: map<byte, string>, order: seq<byte>): map<string, byte>
    requires forall i :: 0 <= i < |order| ==> order[i] in codes
  {
    if order == [] then map[]
    else
      var c := order[|order| - 1];
      InverseOf(codes, order[..|order| - 1])[codes[c] := c]
  }

  lemma {:induction false} EntriesOfLines(codes: map<byte, string>, order: seq<byte>)
    requires forall i :: 0 <= i < |order| ==> order[i] in codes
    requires Writable(codes)
    ensures Entries(EntryLines(codes, order)) == Ok(InverseOf(codes, order))
    ensures forall k :: 0 <= k < |EntryLines(codes, order)| ==> NEWLINE !in EntryLines(codes, order)[k]
    ensures |EntryLines(codes, order)| == |order|
    decreases |order|
  {
    if order != [] {
      var init, c := order[..|order| - 1], order[|order| - 1];
      EntriesOfLines(codes, init);
      EntryParses(codes[c], c);
      var ls := EntryLines(codes, order);
      assert ls[..|ls| - 1] == EntryLines(codes, init);
    }
  }

  /** The reverse table of an enumeration of distinct codes is the
      inverse of the code table. */
  lemma {:induction false} InverseOfKeys(codes: map<byte, string>, order: seq<byte>)
    requires forall i :: 0 <= i < |order| ==> order[i] in codes
    requires forall i, j :: 0 <= i < j < |order| ==> order[i] != order[j]
    requires DistinctCodes(codes)
    ensures forall w :: w in InverseOf(codes, order) ==> InverseOf(codes, order)[w] in order && codes[InverseOf(codes, order)[w]] == w
    ensures forall i :: 0 <= i < |order| ==> codes[order[i]] in InverseOf(codes, order) && InverseOf(codes, order)[codes[order[i]]] == order[i]
    decreases |order|
  {
    if order != [] {
      var init, c := order[..|order| - 1], order[|order| - 1];
      InverseOfKeys(codes, init);
      var t := InverseOf(codes, order);
      forall i | 0 <= i < |order|
        ensures codes[order[i]] in t && t[codes[order[i]]] == order[i]
      {
        if i < |order| - 1 {
          assert order[i] == init[i] && order[i] != c;
        }
      }
      forall w | w in t
        ensures t[w] in order && codes[t[w]] == w
      {
        if w != codes[c] {
          assert t[w] in init;
        }
      }
    }
  }

  lemma InverseOfTable(codes: map<byte, string>, order: seq<byte>)
    requires Enumerates(order, codes) && DistinctCodes(codes)
    ensures Compression.InverseTable(codes, InverseOf(codes, order))
  {
    InverseOfKeys(codes, order);
    var t := InverseOf(codes, order);
    forall c | c in codes
      ensures codes[c] in t && t[codes[c]] == c
    {
      var i :| 0 <= i < |order| && order[i] == c;
    }
  }

  /** An enumeration has one element per key. */
  lemma {:induction false} EnumerationLength(order: seq<byte>, keys: set<byte>)
    requires forall i :: 0 <= i < |order| ==> order[i] in keys
    requires forall c :: c in keys ==> c in order
    requires forall i, j :: 0 <= i < j < |order| ==> order[i] != order[j]
    ensures |order| == |keys|
    decreases |order|
  {
    if order == [] {
      assert keys == {} by {
        if c :| c in keys {
          assert c in order;
        }
      }
    } else {
      var init, c := order[..|order| - 1], order[|order| - 1];
      forall d | d in keys - {c}
        ensures d in init
      {
        var i :| 0 <= i < |order| && order[i] == d;
      }
      EnumerationLength(init, keys - {c});
    }
  }

  /** A set of bytes has at most 256 elements. */
  lemma ByteSetSize(s: set<byte>)
    ensures |s| <= 256
  {
    BelowSize(256);
    assert s <= Below(256);
    SubsetSize(s, Below(256));
  }

  /** The bytes below `n`. */
  function Below(n: nat): (r: set<byte>)
    requires n <= 256
    ensures forall b: byte :: b in r <==> b < n
  {
    if n == 0 then {} else Below(n - 1) + {(n - 1) as byte}
  }

  lemma {:induction false} BelowSize(n: nat)
    requires n <= 256
    ensures |Below(n)| == n
  {
    if n > 0 {
      BelowSize(n - 1);
    }
  }

  lemma {:induction false} SubsetSize<T>(a: set<T>, b: set<T>)
    requires a <= b
    ensures |a| <= |b|
    decreases |a|
  {
    if a != {} {
      var x :| x in a;
      SubsetSize(a - {x}, b - {x});
    }
  }

  /** The lines a header and its payload split into. */
  lemma HeaderSplit(codes: map<byte, string>, order: seq<byte>, payload: seq<byte>)
    requires Writable(codes) && forall i :: 0 <= i < |order| ==> order[i] in codes
    requires NEWLINE !in payload
    ensures Split(Lines(HeaderLines(codes, order)) + payload, NEWLINE) == HeaderLines(codes, order) + [payload]
  {
    HeaderLinesShape(codes, order);
    SplitLines(HeaderLines(codes, order), payload);
    SplitNoSeparator(payload, NEWLINE);
  }

  /** The header's lines parse to the inverse of the table they list. */
  lemma ParseHeaderLines(codes: map<byte, string>, order: seq<byte>, contents: seq<byte>, lines: seq<seq<byte>>, payload: seq<byte>)
    requires Writable(codes) && Enumerates(order, codes)
    requires lines == HeaderLines(codes, order) + [payload]
    requires Split(contents, NEWLINE) == lines
    ensures ParseHeader(contents) == Ok(InverseOf(codes, order))
  {
    var entries := EntryLines(codes, order);
    EntriesOfLines(codes, order);
    EnumerationLength(order, codes.Keys);
    ByteSetSize(codes.Keys);
    var n := |codes|;
    assert lines == [HEADER_START, Decimal(n)] + entries + [HEADER_END, payload];
    assert |lines| == n + 4;
    assert lines[2..EntriesEnd(|lines|)] == entries;
    AtoiDecimal(n);
    assert lines[n + 2] == HEADER_END;
  }

  /** The payload after the header's lines is the last line. */
  lemma PayloadLines(codes: map<byte, string>, order: seq<byte>, contents: seq<byte>, lines: seq<seq<byte>>, payload: seq<byte>)
    requires Writable(codes) && forall i :: 0 <= i < |order| ==> order[i] in codes
    requires lines == HeaderLines(codes, order) + [payload]
    requires Split(contents, NEWLINE) == lines
    ensures Payload(contents) == Ok(payload)
  {
    var head := HeaderLines(codes, order);
    HeaderLinesShape(codes, order);
    FirstEndAt(lines, |head| - 1);
    assert lines[|head|..] == [payload];
    JoinSingle(payload);
  }

  /** Header and payload read back: a header written for a writable table
      with distinct codes, followed by a payload without newline bytes,
      parses to the inverse of the table, and the payload is returned
      unchanged. */
  lemma HeaderRoundTrip(codes: map<byte, string>, order: seq<byte>, payload: seq<byte>)
    requires Writable(codes) && DistinctCodes(codes) && Enumerates(order, codes)
    requires NEWLINE !in payload
    ensures ParseHeader(Lines(HeaderLines(codes, order)) + payload).Ok?
    ensures Compression.InverseTable(codes, ParseHeader(Lines(HeaderLines(codes, order)) + payload).value)
    ensures Payload(Lines(HeaderLines(codes, order)) + payload) == Ok(payload)
  {
    var contents := Lines(HeaderLines(codes, order)) + payload;
    var lines := HeaderLines(codes, order) + [payload];
    HeaderSplit(codes, order, payload);
    ParseHeaderLines(codes, order, contents, lines, payload);
    PayloadLines(codes, order, contents, lines, payload);
    InverseOfTable(codes, order);
  }

  /** The lines of a header: no newline inside, and only the last is the
      end marker. */
  lemma HeaderLinesShape(codes: map<byte, string>, order: seq<byte>)
    requires Writable(codes) && forall i :: 0 <= i < |order| ==> order[i] in codes
    ensures var head := HeaderLines(codes, order);
      && (forall k :: 0 <= k < |head| ==> NEWLINE !in head[k])
      && (forall k :: 0 <= k < |head| - 1 ==> head[k] != HEADER_END)
      && head[|head| - 1] == HEADER_END
  {
    var entries := EntryLines(codes, order);
    var head := HeaderLines(codes, order);
    EntriesOfLines(codes, order);
    EntryLinesHaveComma(codes, order);
    forall k | 0 <= k < |head|
      ensures NEWLINE !in head[k]
    {
      if 2 <= k < |head| - 1 {
        assert head[k] == entries[k - 2];
      }
    }
    forall k | 0 <= k < |head| - 1
      ensures head[k] != HEADER_END
    {
      if k == 1 {
        assert IsDigit(head[1][0]);
      } else if k >= 2 {
        assert head[k] == entries[k - 2];
        assert COMMA in head[k];
      }
    }
  }

  lemma {:induction false} EntryLinesHaveComma(codes: map<byte, string>, order: seq<byte>)
    requires forall i :: 0 <= i < |order| ==> order[i] in codes
    ensures forall k :: 0 <= k < |EntryLines(codes, order)| ==> COMMA in EntryLines(codes, order)[k]
    decreases |order|
  {
    if order != [] {
      var init, c := order[..|order| - 1], order[|order| - 1];
      EntryLinesHaveComma(codes, init);
      var line := EntryLine(codes[c], c);
      assert line[|Utf8String(codes[c])|] == COMMA;
    }
  }

  // ---------------------------------------------------------------------
  // Test vectors of compress/file/file_test.go
  // ---------------------------------------------------------------------

  /** "HS\n0\nHE\n", the lines "HS", "0" and "HE", parses to the empty
      table. */
  lemma EmptyHeaderVector(head: seq<seq<byte>>)
    requires |head| == 3 && head[0] == HEADER_START && head[1] == [48] && head[2] == HEADER_END
    ensures ParseHeader(Lines(head)) == Ok(map[])
  {
    var lines := LinesOfHeaderVector(head);
    assert Decimal(0) == [48];
    AtoiDecimal(0);
    assert lines[2..EntriesEnd(|lines|)] == [];
    ParseHeaderOk(Lines(head));
  }

  /** The parser's first test vector, "HS\n4\n00,a\n01,b\n10,c\n11,d\nHE\n"
      (its seven lines, each ended by a newline), parses to
      {"00": 'a', "01": 'b', "10": 'c', "11": 'd'}. */
  lemma FourEntryVector(head: seq<seq<byte>>)
    requires |head| == 7 && head[0] == HEADER_START && head[1] == [52]
    requires head[2] == [48, 48, 44, 97] && head[3] == [48, 49, 44, 98] && head[4] == [49, 48, 44, 99] && head[5] == [49, 49, 44, 100]
    requires head[6] == HEADER_END
    ensures ParseHeader(Lines(head)) == Ok(map["00" := 97, "01" := 98, "10" := 99, "11" := 100])
  {
    var lines := LinesOfHeaderVector(head);
    assert Decimal(4) == [52];
    AtoiDecimal(4);
    var table := EntriesOfFour(head[2], head[3], head[4], head[5]);
    assert lines[2..EntriesEnd(|lines|)] == [head[2], head[3], head[4], head[5]];
    assert lines[6] == HEADER_END;
    ParseHeaderOk(Lines(head));
  }

  /** The lines of a header vector, followed by the empty last line. */
  lemma LinesOfHeaderVector(head: seq<seq<byte>>) returns (lines: seq<seq<byte>>)
    requires forall k :: 0 <= k < |head| ==> NEWLINE !in head[k]
    ensures lines == head + [[]] && Split(Lines(head), NEWLINE) == lines
  {
    SplitLines(head, []);
    SplitNoSeparator([], NEWLINE);
    assert Lines(head) + [] == Lines(head);
    lines := head + [[]];
  }

  /** Four entry lines of two code bytes and a symbol each. */
  lemma EntriesOfFour(l0: seq<byte>, l1: seq<byte>, l2: seq<byte>, l3: seq<byte>) returns (table: map<string, byte>)
    requires l0 == [48, 48, 44, 97] && l1 == [48, 49, 44, 98] && l2 == [49, 48, 44, 99] && l3 == [49, 49, 44, 100]
    ensures table == map["00" := 97, "01" := 98, "10" := 99, "11" := 100]
    ensures Entries([l0, l1, l2, l3]) == Ok(table)
  {
    TwoByteEntry(48, 48, 97);
    TwoByteEntry(48, 49, 98);
    TwoByteEntry(49, 48, 99);
    TwoByteEntry(49, 49, 100);
    var ls := [l0, l1, l2, l3];
    assert ls[..0] == [];
    EntriesStep(ls, 0, map[]);
    EntriesStep(ls, 1, map["00" := 97]);
    EntriesStep(ls, 2, map["00" := 97, "01" := 98]);
    EntriesStep(ls, 3, map["00" := 97, "01" := 98, "10" := 99]);
    assert ls[..4] == ls;
    table := map["00" := 97, "01" := 98, "10" := 99, "11" := 100];
  }

  /** An entry line of two code bytes and a symbol. */
  lemma TwoByteEntry(a: byte, b: byte, c: byte)
    requires a != COMMA && b != COMMA && c != COMMA
    ensures Entry([a, b, COMMA, c]) == Ok(([a as char, b as char], c))
  {
    assert [a, b, COMMA, c] == [a, b] + [COMMA] + [c];
    SplitCons([a, b], COMMA, [c]);
    SplitNoSeparator([c], COMMA);
    var code := Latin1([a, b]);
    assert code[0] as int == a && code[1] as int == b;
    assert code == [a as char, b as char];
  }

  /** The payload vector "HS\n3\na,1\nb,2\nc,3\nHE\n010101\n": the six
      header lines, then "010101" and a newline, give the payload
      "010101" with the newline dropped. */
  lemma PayloadVector(head: seq<seq<byte>>, digits: seq<byte>)
    requires |head| == 6 && head[0] == HEADER_START && head[1] == [51]
    requires head[2] == [97, 44, 49] && head[3] == [98, 44, 50] && head[4] == [99, 44, 51] && head[5] == HEADER_END
    requires digits == [48, 49, 48, 49, 48, 49]
    ensures Payload(Lines(head) + (digits + [NEWLINE])) == Ok(digits)
  {
    assert forall k :: 0 <= k < 5 ==> head[k] != HEADER_END;
    PayloadDropsNewlines(head, digits + [NEWLINE]);
    RemoveLast(digits, NEWLINE);
  }

  /** The empty file and "INVALID_HEADER\n010101\n" have no end-marker
      line. */
  lemma NoEndMarkerVector(first: seq<byte>, second: seq<byte>)
    requires first == [73, 78, 86, 65, 76, 73, 68, 95, 72, 69, 65, 68, 69, 82]
    requires second == [48, 49, 48, 49, 48, 49]
    ensures Payload([]) == Err(EndMarkerNotFound)
    ensures Payload(first + [NEWLINE] + second + [NEWLINE]) == Err(EndMarkerNotFound)
  {
    SplitNoSeparator([], NEWLINE);
    assert FirstEnd([[]]) == None;
    assert first + [NEWLINE] + second + [NEWLINE] == first + [NEWLINE] + (second + [NEWLINE] + []);
    SplitCons(first, NEWLINE, second + [NEWLINE] + []);
    SplitCons(second, NEWLINE, []);
    var lines := [first, second, []];
    assert Split(first + [NEWLINE] + second + [NEWLINE], NEWLINE) == lines;
    assert forall k :: 0 <= k < |lines| ==> lines[k] != HEADER_END;
  }

  /** "HS\n4\n00,a\n01,b\n10,c\n11,d", whose last entry has no newline
      and no end marker follows, fails with the end-marker error: it has
      six lines, fewer than the count plus three. */
  lemma MissingEndMarkerVector(head: seq<seq<byte>>, last: seq<byte>)
    requires |head| == 5 && head[0] == HEADER_START && head[1] == [52]
    requires head[2] == [48, 48, 44, 97] && head[3] == [48, 49, 44, 98] && head[4] == [49, 48, 44, 99]
    requires last == [49, 49, 44, 100]
    ensures ParseHeader(Lines(head) + last) == Err(InvalidEndMarker)
  {
    SplitLines(head, last);
    SplitNoSeparator(last, NEWLINE);
    var lines := head + [last];
    assert Decimal(4) == [52];
    AtoiDecimal(4);
    assert lines[2..EntriesEnd(|lines|)] == [head[2], head[3]];
    EntriesOfTwo(head[2], head[3]);
    TooFewLines(Lines(head) + last);
  }

  lemma EntriesOfTwo(l0: seq<byte>, l1: seq<byte>)
    requires l0 == [48, 48, 44, 97] && l1 == [48, 49, 44, 98]
    ensures Entries([l0, l1]).Ok?
  {
    TwoByteEntry(48, 48, 97);
    TwoByteEntry(48, 49, 98);
    var ls := [l0, l1];
    assert ls[..0] == [];
    EntriesStep(ls, 0, map[]);
    EntriesStep(ls, 1, map["00" := 97]);
    assert ls[..2] == ls;
  }

  /** A header with a well-formed start, count and entries but fewer
      lines than the count plus three fails with the end-marker error. */
  lemma TooFewLines(contents: seq<byte>)
    requires var lines := Split(contents, NEWLINE);
      && lines[0] == HEADER_START && |lines| >= 2 && Atoi(lines[1]).Some?
      && 0 <= Atoi(lines[1]).value <= MAX_INT - 3
      && |lines| < Atoi(lines[1]).value + 3
      && Entries(lines[2..EntriesEnd(|lines|)]).Ok?
    ensures ParseHeader(contents) == Err(InvalidEndMarker)
  {
  }

  /** A file whose first line is "4" rather than the start marker, as in
      "4\n00,a\n01,b\n10,c\n11,d\nHE\n", fails with the start-marker
      error whatever follows. */
  lemma MissingStartMarkerVector(rest: seq<byte>)
    ensures ParseHeader([52, NEWLINE] + rest) == Err(InvalidStartMarker)
  {
    assert [52, NEWLINE] + rest == [52] + [NEWLINE] + rest;
    SplitCons([52], NEWLINE, rest);
  }
}
