/** The bit packer `Encode` (compress/compression/compression.go) and the
    bit-walking decoder `Decode` (compress/compression/decompression.go). */
module Compression {
  import opened Wrappers
  import opened Text
  import opened Queue
  import opened Huffman

  // ---------------------------------------------------------------------
  // Bits and bytes
  // ---------------------------------------------------------------------

  /** `1 << m`, the byte with only bit `m` set (0 the least significant). */
  function Mask(m: nat): bv8
    requires m < 8
  {
    if m == 0 then 0x01 else if m == 1 then 0x02 else if m == 2 then 0x04 else if m == 3 then 0x08
    else if m == 4 then 0x10 else if m == 5 then 0x20 else if m == 6 then 0x40 else 0x80
  }

  /** Bit `j` (0 the least significant) of a byte. */
  predicate Bit(a: bv8, j: nat)
    requires j < 8
  {
    a & Mask(j) != 0
  }

  lemma OrBit(a: bv8, k: nat, j: nat)
    requires k < 8 && j < 8
    ensures Bit(SetBit(a, k), j) == (j == 7 - k || Bit(a, j))
  {
  }

  /** `fmt.Sprintf("%08b", b)`: the eight bits of a byte, most significant first. */
  function ByteBits(b: byte): (r: string)
    ensures |r| == 8
  {
    Bits8(b as bv8)
  }

  function Bits8(v: bv8): (r: string)
    ensures |r| == 8
  {
    [BitChar(v, 7), BitChar(v, 6), BitChar(v, 5), BitChar(v, 4),
     BitChar(v, 3), BitChar(v, 2), BitChar(v, 1), BitChar(v, 0)]
  }

  function BitChar(v: bv8, j: nat): char
    requires j < 8
  {
    if Bit(v, j) then '1' else '0'
  }

  /** The bit string a byte string stands for: each byte's `%08b`, in order. */
  function Unpack(e: seq<byte>): string
    decreases |e|
  {
    if e == [] then [] else Unpack(e[..|e| - 1]) + ByteBits(e[|e| - 1])
  }

  /** A code string read as bits: '1' is a one, anything else a zero. */
  function Normal(w: string): (r: string)
    ensures |r| == |w| && IsBits(r)
  {
    seq(|w|, k requires 0 <= k < |w| => if w[k] == '1' then '1' else '0')
  }

  function Zeros(n: nat): (r: string)
    ensures |r| == n && IsBits(r)
  {
    seq(n, k => '0')
  }

  /** The number of zero bits that pad `n` bits to whole bytes. */
  function Pad(n: nat): nat
  {
    if n == 0 then 0 else if n <= 8 then 8 - n else Pad(n - 8)
  }

  lemma {:induction false} PadWhole(n: nat)
    requires n % 8 == 0
    ensures Pad(n) == 0
  {
    if n > 8 {
      PadWhole(n - 8);
    }
  }

  /** The padding is less than a byte and fills the bits up to whole bytes. */
  lemma {:induction false} PadFills(n: nat)
    ensures Pad(n) < 8 && (n + Pad(n)) % 8 == 0
  {
    if n > 8 {
      PadFills(n - 8);
    }
  }

  // ---------------------------------------------------------------------
  // Encode
  // ---------------------------------------------------------------------

  /** A byte's code; Go's lookup of a missing key gives "". */
  function CodeOf(codes: map<byte, string>, b: byte): string
  {
    if b in codes then codes[b] else ""
  }

  /** The logical bit string the first loop of `Encode` writes into its
      buffer: the codes of the source bytes, in order. */
  function Bits(s: seq<byte>, codes: map<byte, string>): string
    decreases |s|
  {
    if s == [] then [] else Bits(s[..|s| - 1], codes) + CodeOf(codes, s[|s| - 1])
  }

  /** The byte the packing loop accumulates from up to eight bits: bit k of
      the chunk is or-ed in at position 7 - k when it is '1'. */
  function Placed(w: string): bv8
    requires |w| <= 8
    decreases |w|
  {
    if w == [] then 0
    else
      var k := |w| - 1;
      var v := Placed(w[..k]);
      if w[k] == '1' then SetBit(v, k) else v
  }

  /** Or-s a one into a byte at position 7 - k, the k-th bit from the top. */
  function SetBit(v: bv8, k: nat): bv8
    requires k < 8
  {
    v | Mask(7 - k)
  }

  /** A byte shifted left by `n` bits; bits shifted past the top are lost. */
  function ShiftLeft(v: bv8, n: nat): bv8
    requires n <= 8
  {
    v << n
  }

  /** A byte value as a Go `byte`. */
  function AsByte(v: bv8): byte
  {
    v as int
  }

  /** Packing as intended: consecutive chunks of eight bits, most
      significant bit first, and a last partial chunk padded with zero bits
      in its low-order positions. */
  function Pack(bits: string): seq<byte>
    decreases |bits|
  {
    if bits == [] then []
    else if |bits| <= 8 then [AsByte(Placed(bits))]
    else [AsByte(Placed(bits[..8]))] + Pack(bits[8..])
  }

  /** The whole-byte part of a bit string, and the bits left over. */
  function Full(bits: string): string
  {
    bits[..|bits| - |bits| % 8]
  }

  function Tail(bits: string): string
  {
    bits[|bits| - |bits| % 8..]
  }

  /** Packing as `Encode` does it: the whole bytes as intended, but a last
      partial byte, whose bits are already in place, is shifted left again
      by the number of missing bits, and bits shifted out of the byte are lost. */
  function PackAsWritten(bits: string): seq<byte>
  {
    var t := Tail(bits);
    Pack(Full(bits)) + (if t == [] then [] else [AsByte(ShiftLeft(Placed(t), 8 - |t|))])
  }

  /** `Encode`: writes each byte's code into a buffer, then packs the bit
      string, emitting a byte after every eighth bit and handling a partial
      last byte with the extra shift. */
  method Encode(sourceText: seq<byte>, codes: map<byte, string>) returns (out: seq<byte>)
    ensures out == PackAsWritten(Bits(sourceText, codes))
  {
    var encodedText: string := "";
    for i := 0 to |sourceText|
      invariant encodedText == Bits(sourceText[..i], codes)
    {
      assert sourceText[..i + 1][..i] == sourceText[..i];
      encodedText := encodedText + CodeOf(codes, sourceText[i]);
    }
    assert sourceText[..|sourceText|] == sourceText;
    out := PackBits(encodedText);
  }

  /** The second loop of `Encode`: packs a bit string into bytes. */
  method PackBits(encodedText: string) returns (out: seq<byte>)
    ensures out == PackAsWritten(encodedText)
  {
    var byteBuffer: seq<byte> := [];
    var byteValue: bv8 := 0;
    var byteIndex := 0;
    ghost var packed: string := [];
    ghost var pending: string := [];
    ghost var full: nat := 0;
    for i := 0 to |encodedText|
      invariant packed + pending == encodedText[..i]
      invariant 0 <= byteIndex < 8 && |pending| == byteIndex && |packed| == 8 * full
      invariant byteBuffer == Pack(packed)
      invariant byteIndex != 0 ==> byteValue == Placed(pending)
    {
      if byteIndex == 0 {
        byteValue := 0;
      }
      PlacedSnoc(pending, encodedText[i]);
      if encodedText[i] == '1' {
        byteValue := SetBit(byteValue, byteIndex);
      }
      byteIndex := byteIndex + 1;
      pending := pending + [encodedText[i]];
      assert encodedText[..i + 1] == encodedText[..i] + [encodedText[i]];
      if byteIndex == 8 {
        byteIndex := 0;
        PackSnocByte(packed, pending, full);
        byteBuffer := byteBuffer + [AsByte(byteValue)];
        packed, pending, full := packed + pending, [], full + 1;
      }
    }
    assert encodedText[..|encodedText|] == encodedText;
    PackEnd(encodedText, byteBuffer, byteValue, packed, pending, full);
    if byteIndex != 0 {
      byteBuffer := byteBuffer + [AsByte(ShiftLeft(byteValue, 8 - byteIndex))];
    }
    out := byteBuffer;
  }

  /** What the packing loop leaves behind, once the last partial byte is
      handled, is `PackAsWritten` of the bit string. */
  lemma PackEnd(bits: string, buf: seq<byte>, v: bv8, packed: string, pending: string, full: nat)
    requires packed + pending == bits && |pending| < 8 && |packed| == 8 * full
    requires buf == Pack(packed)
    requires pending != [] ==> v == Placed(pending)
    ensures (if pending != [] then buf + [AsByte(ShiftLeft(v, 8 - |pending|))] else buf) == PackAsWritten(bits)
  {
    Mod8(|bits|, full, |pending|);
    assert Tail(bits) == pending;
    assert Full(bits) == packed;
  }

  lemma Mod8(n: nat, q: nat, r: nat)
    requires n == 8 * q + r && r < 8
    ensures n % 8 == r
  {
  }

  lemma {:induction false} PackSnocByte(w: string, chunk: string, k: nat)
    requires |w| == 8 * k && |chunk| == 8
    ensures Pack(w + chunk) == Pack(w) + [AsByte(Placed(chunk))]
    decreases k
  {
    if k == 0 {
      assert w + chunk == chunk;
    } else {
      assert (w + chunk)[..8] == w[..8];
      assert (w + chunk)[8..] == w[8..] + chunk;
      PackSnocByte(w[8..], chunk, k - 1);
    }
  }

  /** Packing keeps the whole bytes and packs the leftover bits alone. */
  lemma {:induction false} PackSplit(bits: string)
    ensures Pack(bits) == Pack(Full(bits)) + (if Tail(bits) == [] then [] else [AsByte(Placed(Tail(bits)))])
    decreases |bits|
  {
    if |bits| > 8 {
      PackSplit(bits[8..]);
      FullTailStep(bits);
      assert Full(bits)[..8] == bits[..8] && Full(bits)[8..] == Full(bits[8..]);
    } else if |bits| == 8 {
      assert Full(bits) == bits && Tail(bits) == [];
    } else {
      assert Full(bits) == [] && Tail(bits) == bits;
    }
  }

  lemma FullTailStep(bits: string)
    requires |bits| > 8
    ensures Full(bits) == bits[..8] + Full(bits[8..]) && Tail(bits) == Tail(bits[8..])
  {
    var n, q, r := |bits|, |bits| / 8, |bits| % 8;
    assert n == 8 * q + r && q >= 1;
    Mod8(n - 8, q - 1, r);
    assert bits[8..][..n - 8 - r] == bits[8..n - r];
    assert bits[..n - r] == bits[..8] + bits[8..n - r];
    assert bits[8..][n - 8 - r..] == bits[n - r..];
  }

  /** Output length is the number of bits rounded up to whole bytes. */
  lemma {:induction false} PackLength(bits: string)
    ensures |Pack(bits)| == (|bits| + 7) / 8
    decreases |bits|
  {
    if |bits| > 8 {
      PackLength(bits[8..]);
    }
  }

  /** The packer's output has ceil(bits / 8) bytes, as written too. */
  lemma PackAsWrittenLength(bits: string)
    ensures |PackAsWritten(bits)| == (|bits| + 7) / 8
  {
    PackLength(Full(bits));
    PackLength(bits);
    PackSplit(bits);
  }

  /** When the bit count is a multiple of eight the extra shift never
      happens and `Encode` packs as intended. */
  lemma PackAsWrittenWholeBytes(bits: string)
    requires |bits| % 8 == 0
    ensures PackAsWritten(bits) == Pack(bits)
  {
    assert Full(bits) == bits;
  }

  /** The bits of an accumulated byte: position 7 - j holds bit j of the chunk. */
  lemma {:induction false} PlacedBit(w: string, j: nat)
    requires |w| <= 8 && j < 8
    ensures Bit(Placed(w), 7 - j) == (j < |w| && w[j] == '1')
    decreases |w|
  {
    if w != [] {
      var k := |w| - 1;
      PlacedBit(w[..k], j);
      if w[k] == '1' {
        OrBit(Placed(w[..k]), k, 7 - j);
      }
    }
  }

  /** Position `j` of a chunk of at most eight bits padded with zeros. */
  function PadChar(w: string, j: nat): char
  {
    if j < |w| && w[j] == '1' then '1' else '0'
  }

  /** The accumulated byte, printed with `%08b`, is the chunk padded with zeros. */
  lemma ByteBitsPlaced(w: string)
    requires |w| <= 8
    ensures Bits8(Placed(w))
         == [PadChar(w, 0), PadChar(w, 1), PadChar(w, 2), PadChar(w, 3),
             PadChar(w, 4), PadChar(w, 5), PadChar(w, 6), PadChar(w, 7)]
  {
    forall j | 0 <= j < 8
      ensures BitChar(Placed(w), 7 - j) == PadChar(w, j)
    {
      PlacedBit(w, j);
    }
    PrintedBits(Placed(w), w);
  }

  /** A byte whose bits, from the top, are those of the chunk prints as the
      padded chunk. */
  lemma PrintedBits(v: bv8, w: string)
    requires forall j :: 0 <= j < 8 ==> BitChar(v, 7 - j) == PadChar(w, j)
    ensures Bits8(v)
         == [PadChar(w, 0), PadChar(w, 1), PadChar(w, 2), PadChar(w, 3),
             PadChar(w, 4), PadChar(w, 5), PadChar(w, 6), PadChar(w, 7)]
  {
  }

  lemma PaddedChunk(w: string)
    requires |w| <= 8
    ensures [PadChar(w, 0), PadChar(w, 1), PadChar(w, 2), PadChar(w, 3),
             PadChar(w, 4), PadChar(w, 5), PadChar(w, 6), PadChar(w, 7)]
         == Normal(w) + Zeros(8 - |w|)
  {
    var a := [PadChar(w, 0), PadChar(w, 1), PadChar(w, 2), PadChar(w, 3),
              PadChar(w, 4), PadChar(w, 5), PadChar(w, 6), PadChar(w, 7)];
    var b := Normal(w) + Zeros(8 - |w|);
    forall j | 0 <= j < 8
      ensures a[j] == b[j]
    {
      if j < |w| {
        assert b[j] == Normal(w)[j];
      } else {
        assert b[j] == Zeros(8 - |w|)[j - |w|];
      }
    }
  }

  /** A chunk of bits, packed and read back. */
  lemma ChunkBits(w: string)
    requires |w| <= 8
    ensures ByteBits(AsByte(Placed(w))) == Normal(w) + Zeros(8 - |w|)
  {
    var v := Placed(w);
    assert (v as int) as bv8 == v;
    ByteBitsPlaced(w);
    PaddedChunk(w);
  }

  lemma {:induction false} UnpackAppend(a: seq<byte>, b: seq<byte>)
    ensures Unpack(a + b) == Unpack(a) + Unpack(b)
    decreases |b|
  {
    if b == [] {
      assert a + b == a;
    } else {
      var init := b[..|b| - 1];
      assert (a + b)[..|a + b| - 1] == a + init;
      UnpackAppend(a, init);
    }
  }

  lemma UnpackSingle(b: byte)
    ensures Unpack([b]) == ByteBits(b)
  {
    assert [b][..0] == [];
  }

  /** MSB-first packing, read back: the stream's bits, '1' as a one and any
      other code character as a zero, followed by the zero padding. */
  lemma {:induction false} UnpackPack(bits: string)
    ensures Unpack(Pack(bits)) == Normal(bits) + Zeros(Pad(|bits|))
    decreases |bits|
  {
    if bits == [] {
      assert Normal(bits) + Zeros(Pad(|bits|)) == [];
    } else if |bits| <= 8 {
      UnpackPackChunk(bits);
    } else {
      UnpackPack(bits[8..]);
      UnpackPackStep(bits);
    }
  }

  lemma UnpackPackChunk(bits: string)
    requires 0 < |bits| <= 8
    ensures Unpack(Pack(bits)) == Normal(bits) + Zeros(Pad(|bits|))
  {
    assert Pack(bits) == [AsByte(Placed(bits))];
    UnpackSingle(AsByte(Placed(bits)));
    ChunkBits(bits);
  }

  lemma UnpackPackStep(bits: string)
    requires |bits| > 8
    requires Unpack(Pack(bits[8..])) == Normal(bits[8..]) + Zeros(Pad(|bits| - 8))
    ensures Unpack(Pack(bits)) == Normal(bits) + Zeros(Pad(|bits|))
  {
    var h := AsByte(Placed(bits[..8]));
    assert Pack(bits) == [h] + Pack(bits[8..]);
    UnpackCons(h, Pack(bits[8..]));
    ChunkBits(bits[..8]);
    NormalStep(bits);
  }

  lemma UnpackCons(h: byte, rest: seq<byte>)
    ensures Unpack([h] + rest) == ByteBits(h) + Unpack(rest)
  {
    UnpackAppend([h], rest);
    UnpackSingle(h);
  }

  /** The stream's first eight bits, then the rest with its padding. */
  lemma NormalStep(bits: string)
    requires |bits| > 8
    ensures Normal(bits[..8]) + Zeros(8 - |bits[..8]|) + (Normal(bits[8..]) + Zeros(Pad(|bits| - 8)))
         == Normal(bits) + Zeros(Pad(|bits|))
  {
    assert Zeros(8 - |bits[..8]|) == [];
    NormalAppend(bits[..8], bits[8..]);
    assert bits[..8] + bits[8..] == bits;
  }

  lemma NormalAppend(a: string, b: string)
    ensures Normal(a + b) == Normal(a) + Normal(b)
  {
  }

  /** The encoding test vector: {a:"00", b:"01", c:"10", d:"11"} over "abcd"
      gives the single byte 0b00011011; the empty text gives no bytes. */
  lemma EncodeExample(codes: map<byte, string>)
    requires codes == map[97 := "00", 98 := "01", 99 := "10", 100 := "11"]
    ensures PackAsWritten(Bits([97, 98, 99, 100], codes)) == [0x1B]
    ensures PackAsWritten(Bits([], codes)) == []
  {
    ExampleBits(codes, [97, 98, 99, 100]);
    ExamplePacked();
  }

  lemma ExampleBits(codes: map<byte, string>, s: seq<byte>)
    requires codes == map[97 := "00", 98 := "01", 99 := "10", 100 := "11"]
    requires s == [97, 98, 99, 100]
    ensures Bits(s, codes) == "00011011"
  {
    BitsSnoc([], s[0], codes);
    assert [] + [s[0]] == s[..1];
    BitsSnoc(s[..1], s[1], codes);
    assert s[..1] + [s[1]] == s[..2];
    BitsSnoc(s[..2], s[2], codes);
    assert s[..2] + [s[2]] == s[..3];
    BitsSnoc(s[..3], s[3], codes);
    assert s[..3] + [s[3]] == s;
    assert Bits([], codes) == [];
  }

  lemma ExamplePacked()
    ensures PackAsWritten("00011011") == [0x1B]
  {
    PackAsWrittenWholeBytes("00011011");
    assert Pack("00011011") == [AsByte(Placed("00011011"))];
    PlacedExample();
  }

  lemma BitsSnoc(s: seq<byte>, c: byte, codes: map<byte, string>)
    ensures Bits(s + [c], codes) == Bits(s, codes) + CodeOf(codes, c)
  {
    assert (s + [c])[..|s|] == s;
  }

  lemma PlacedSnoc(w: string, c: char)
    requires |w| < 8
    ensures Placed(w + [c]) == if c == '1' then SetBit(Placed(w), |w|) else Placed(w)
  {
    assert (w + [c])[..|w|] == w;
  }

  /** Eight bits determine a byte. */
  lemma SameBits(u: bv8, v: bv8)
    requires forall j :: 0 <= j < 8 ==> Bit(u, j) == Bit(v, j)
    ensures u == v
  {
    assert Bit(u, 0) == Bit(v, 0) && Bit(u, 1) == Bit(v, 1) && Bit(u, 2) == Bit(v, 2) && Bit(u, 3) == Bit(v, 3);
    assert Bit(u, 4) == Bit(v, 4) && Bit(u, 5) == Bit(v, 5) && Bit(u, 6) == Bit(v, 6) && Bit(u, 7) == Bit(v, 7);
  }

  /** A chunk of eight bits accumulates to the byte with those bits. */
  lemma PlacedValue(w: string, v: bv8)
    requires |w| == 8
    requires forall j :: 0 <= j < 8 ==> Bit(v, 7 - j) == (w[j] == '1')
    ensures Placed(w) == v
  {
    forall j | 0 <= j < 8
      ensures Bit(Placed(w), j) == Bit(v, j)
    {
      PlacedBit(w, 7 - j);
    }
    SameBits(Placed(w), v);
  }

  lemma PlacedExample()
    ensures Placed("00011011") == 0x1B
  {
    PlacedValue("00011011", 0x1B);
  }

  // ---------------------------------------------------------------------
  // Decode
  // ---------------------------------------------------------------------

  /** The decoder's accumulator `currentCode` and its output `decodedText`. */
  datatype DecodeState = DecodeState(current: string, decoded: seq<byte>)

  /** `fmt.Errorf("invalid code: %s", currentCode)`. */
  datatype DecodeError = InvalidCode(code: string)

  /** One bit of the inner loop: append it to the accumulator; if the
      accumulator is now a key of the table, emit its symbol and reset. */
  function Step(st: DecodeState, bit: char, table: map<string, byte>): DecodeState
  {
    var current := st.current + [bit];
    if current in table then DecodeState("", st.decoded + [table[current]])
    else DecodeState(current, st.decoded)
  }

  /** Feeding a bit string to the decoder, one bit at a time. */
  function Run(st: DecodeState, bits: string, table: map<string, byte>): DecodeState
    decreases |bits|
  {
    if bits == [] then st else Run(Step(st, bits[0], table), bits[1..], table)
  }

  /** What `Decode` returns: the symbols emitted over all the bits of the
      input, or the invalid-code error when bits remain in the accumulator. */
  function Decoded(encodedText: seq<byte>, table: map<string, byte>): Result<seq<byte>, DecodeError>
  {
    var st := Run(DecodeState("", []), Unpack(encodedText), table);
    if st.current != "" then Err(InvalidCode(st.current)) else Ok(st.decoded)
  }

  lemma {:induction false} RunAppend(st: DecodeState, a: string, b: string, table: map<string, byte>)
    ensures Run(st, a + b, table) == Run(Run(st, a, table), b, table)
    decreases |a|
  {
    if a == [] {
      assert a + b == b;
    } else {
      assert (a + b)[0] == a[0] && (a + b)[1..] == a[1..] + b;
      RunAppend(Step(st, a[0], table), a[1..], b, table);
    }
  }

  lemma RunSnoc(st: DecodeState, a: string, bit: char, table: map<string, byte>)
    ensures Run(st, a + [bit], table) == Step(Run(st, a, table), bit, table)
  {
    RunAppend(st, a, [bit], table);
  }

  /** `Decode`: expands each byte to its eight bits, most significant first,
      and feeds them to the accumulator; leftover bits are an error. */
  method Decode(encodedText: seq<byte>, codeTable: map<string, byte>)
    returns (r: Result<seq<byte>, DecodeError>)
    ensures r == Decoded(encodedText, codeTable)
  {
    var decodedText: seq<byte> := [];
    var currentCode: string := "";
    for i := 0 to |encodedText|
      invariant DecodeState(currentCode, decodedText) == Run(DecodeState("", []), Unpack(encodedText[..i]), codeTable)
    {
      var binaryRep := ByteBits(encodedText[i]);
      ghost var before := Unpack(encodedText[..i]);
      assert before + binaryRep[..0] == before;
      for j := 0 to 8
        invariant DecodeState(currentCode, decodedText) == Run(DecodeState("", []), before + binaryRep[..j], codeTable)
      {
        RunSnoc(DecodeState("", []), before + binaryRep[..j], binaryRep[j], codeTable);
        assert before + binaryRep[..j + 1] == before + binaryRep[..j] + [binaryRep[j]];
        currentCode := currentCode + [binaryRep[j]];
        if currentCode in codeTable {
          decodedText := decodedText + [codeTable[currentCode]];
          currentCode := "";
        }
      }
      assert encodedText[..i + 1][..i] == encodedText[..i];
      assert binaryRep[..8] == binaryRep;
    }
    assert encodedText[..|encodedText|] == encodedText;
    if currentCode != "" {
      return Err(InvalidCode(currentCode));
    }
    return Ok(decodedText);
  }

  /** Each emitted symbol consumes at least one bit. */
  lemma {:induction false} RunLength(st: DecodeState, bits: string, table: map<string, byte>)
    ensures |Run(st, bits, table).decoded| + |Run(st, bits, table).current| <= |st.decoded| + |st.current| + |bits|
    ensures |Run(st, bits, table).decoded| >= |st.decoded|
    decreases |bits|
  {
    if bits != [] {
      RunLength(Step(st, bits[0], table), bits[1..], table);
    }
  }

  lemma {:induction false} UnpackLength(e: seq<byte>)
    ensures |Unpack(e)| == 8 * |e|
    decreases |e|
  {
    if e != [] {
      UnpackLength(e[..|e| - 1]);
    }
  }

  /** The decoder emits at most eight symbols per input byte. */
  lemma DecodedLength(e: seq<byte>, table: map<string, byte>)
    ensures Decoded(e, table).Ok? ==> |Decoded(e, table).value| <= 8 * |e|
  {
    RunLength(DecodeState("", []), Unpack(e), table);
    UnpackLength(e);
  }

  /** The accumulator is never left holding a key of the table. */
  lemma {:induction false} RunCurrent(st: DecodeState, bits: string, table: map<string, byte>)
    requires st.current == "" || st.current !in table
    ensures Run(st, bits, table).current == "" || Run(st, bits, table).current !in table
    decreases |bits|
  {
    if bits != [] {
      RunCurrent(Step(st, bits[0], table), bits[1..], table);
    }
  }

  /** Every emitted symbol is a value of the table. */
  lemma {:induction false} RunEmitsValues(st: DecodeState, bits: string, table: map<string, byte>)
    requires forall k :: 0 <= k < |st.decoded| ==> st.decoded[k] in table.Values
    ensures forall k :: 0 <= k < |Run(st, bits, table).decoded| ==> Run(st, bits, table).decoded[k] in table.Values
    decreases |bits|
  {
    if bits != [] {
      var next := Step(st, bits[0], table);
      assert forall k :: 0 <= k < |next.decoded| ==> next.decoded[k] in table.Values;
      RunEmitsValues(next, bits[1..], table);
    }
  }

  /** An error names the leftover bits, which are no code of the table;
      success emits only symbols of the table. */
  lemma DecodedOutcome(e: seq<byte>, table: map<string, byte>)
    ensures Decoded(e, table).Err? ==> Decoded(e, table).error.code != "" && Decoded(e, table).error.code !in table
    ensures Decoded(e, table).Ok? ==> forall k :: 0 <= k < |Decoded(e, table).value| ==> Decoded(e, table).value[k] in table.Values
  {
    RunCurrent(DecodeState("", []), Unpack(e), table);
    RunEmitsValues(DecodeState("", []), Unpack(e), table);
  }

  /** The decoding test vector: [165, 15] with {"00":'c', "01":'b', "10":'a',
      "11":'d'} gives "aabbccdd"; the empty input decodes to nothing. */
  lemma DecodeExample(table: map<string, byte>)
    requires table == map["00" := 99, "01" := 98, "10" := 97, "11" := 100]
    ensures Decoded([165, 15], table) == Ok([97, 97, 98, 98, 99, 99, 100, 100])
    ensures Decoded([], table) == Ok([])
  {
    UnpackAppend([165], [15]);
    assert [165] + [15] == [165, 15];
    UnpackSingle(165);
    UnpackSingle(15);
    ExampleBytes();
    RunAppend(DecodeState("", []), ByteBits(165), ByteBits(15), table);
    RunExampleFirst(table, ByteBits(165));
    RunExampleSecond(table, ByteBits(15));
    assert Unpack([]) == [];
  }

  lemma ExampleBytes()
    ensures ByteBits(165) == "10100101" && ByteBits(15) == "00001111"
  {
  }

  lemma RunExampleFirst(table: map<string, byte>, x: string)
    requires table == map["00" := 99, "01" := 98, "10" := 97, "11" := 100]
    requires x == "10100101"
    ensures Run(DecodeState("", []), x, table) == DecodeState("", [97, 97, 98, 98])
  {
    ExampleTable(table);
    var s0, s1, s2 := DecodeState("", []), DecodeState("", [97]), DecodeState("", [97, 97]);
    var s3, s4 := DecodeState("", [97, 97, 98]), DecodeState("", [97, 97, 98, 98]);
    RunTwo(s0, '1', '0', x[2..], table, s1.decoded);
    assert x == ['1', '0'] + x[2..];
    RunTwo(s1, '1', '0', x[4..], table, s2.decoded);
    assert x[2..] == ['1', '0'] + x[4..];
    RunTwo(s2, '0', '1', x[6..], table, s3.decoded);
    assert x[4..] == ['0', '1'] + x[6..];
    RunTwo(s3, '0', '1', x[8..], table, s4.decoded);
    assert x[6..] == ['0', '1'] + x[8..];
    assert x[8..] == [];
  }

  lemma RunExampleSecond(table: map<string, byte>, x: string)
    requires table == map["00" := 99, "01" := 98, "10" := 97, "11" := 100]
    requires x == "00001111"
    ensures Run(DecodeState("", [97, 97, 98, 98]), x, table) == DecodeState("", [97, 97, 98, 98, 99, 99, 100, 100])
  {
    ExampleTable(table);
    var s0, s1 := DecodeState("", [97, 97, 98, 98]), DecodeState("", [97, 97, 98, 98, 99]);
    var s2, s3 := DecodeState("", [97, 97, 98, 98, 99, 99]), DecodeState("", [97, 97, 98, 98, 99, 99, 100]);
    var s4 := DecodeState("", [97, 97, 98, 98, 99, 99, 100, 100]);
    RunTwo(s0, '0', '0', x[2..], table, s1.decoded);
    assert x == ['0', '0'] + x[2..];
    RunTwo(s1, '0', '0', x[4..], table, s2.decoded);
    assert x[2..] == ['0', '0'] + x[4..];
    RunTwo(s2, '1', '1', x[6..], table, s3.decoded);
    assert x[4..] == ['1', '1'] + x[6..];
    RunTwo(s3, '1', '1', x[8..], table, s4.decoded);
    assert x[6..] == ['1', '1'] + x[8..];
    assert x[8..] == [];
  }

  lemma ExampleTable(table: map<string, byte>)
    requires table == map["00" := 99, "01" := 98, "10" := 97, "11" := 100]
    ensures ['0'] !in table && ['1'] !in table
    ensures ['0', '0'] in table && table[['0', '0']] == 99 && ['0', '1'] in table && table[['0', '1']] == 98
    ensures ['1', '0'] in table && table[['1', '0']] == 97 && ['1', '1'] in table && table[['1', '1']] == 100
  {
    assert ['0', '0'] == "00" && ['0', '1'] == "01" && ['1', '0'] == "10" && ['1', '1'] == "11";
  }

  /** A two-bit code whose first bit alone is no key: the decoder emits its
      symbol and resets. */
  lemma RunTwo(st: DecodeState, a: char, b: char, rest: string, table: map<string, byte>, out: seq<byte>)
    requires st.current == "" && [a] !in table && [a, b] in table && out == st.decoded + [table[[a, b]]]
    ensures Run(st, [a, b] + rest, table) == Run(DecodeState("", out), rest, table)
  {
    var w := [a, b] + rest;
    assert w[0] == a && w[1..][0] == b && w[1..][1..] == rest;
    assert st.current + [a] == [a];
    assert [a] + [b] == [a, b];
  }

  // ---------------------------------------------------------------------
  // The round trip
  // ---------------------------------------------------------------------

  /** `table` is the reverse lookup of `codes`: each code maps back to its
      byte, and nothing else is in the table. */
  ghost predicate InverseTable(codes: map<byte, string>, table: map<string, byte>)
  {
    && (forall c :: c in codes ==> codes[c] in table && table[codes[c]] == c)
    && (forall w :: w in table ==> table[w] in codes && codes[table[w]] == w)
  }

  /** Decoding one code from an empty accumulator emits its byte: no
      shorter prefix is a key, as the table is prefix-free. */
  lemma CodeRun(codes: map<byte, string>, table: map<string, byte>, c: byte, out: seq<byte>)
    requires InverseTable(codes, table) && PrefixFree(codes)
    requires c in codes && codes[c] != ""
    ensures Run(DecodeState("", out), codes[c], table) == DecodeState("", out + [c])
  {
    var w := codes[c];
    CodeRunFrom(codes, table, c, out, 0);
    assert w[..0] == "" && w[0..] == w;
  }

  lemma {:induction false} CodeRunFrom(codes: map<byte, string>, table: map<string, byte>, c: byte, out: seq<byte>, k: nat)
    requires InverseTable(codes, table) && PrefixFree(codes)
    requires c in codes && k < |codes[c]|
    ensures Run(DecodeState(codes[c][..k], out), codes[c][k..], table) == DecodeState("", out + [c])
    decreases |codes[c]| - k
  {
    var w := codes[c];
    var current := w[..k] + [w[k]];
    assert current == w[..k + 1];
    assert w[k..][0] == w[k] && w[k..][1..] == w[k + 1..];
    if k + 1 == |w| {
      assert current == w;
    } else {
      assert current !in table by {
        if current in table {
          assert false;
        }
      }
      CodeRunFrom(codes, table, c, out, k + 1);
    }
  }

  /** Decoding the bit string of a text gives the text back. */
  lemma {:induction false} RunBits(s: seq<byte>, codes: map<byte, string>, table: map<string, byte>)
    requires InverseTable(codes, table) && PrefixFree(codes)
    requires forall k :: 0 <= k < |s| ==> s[k] in codes && codes[s[k]] != ""
    ensures Run(DecodeState("", []), Bits(s, codes), table) == DecodeState("", s)
    decreases |s|
  {
    if s != [] {
      var init, c := s[..|s| - 1], s[|s| - 1];
      RunBits(init, codes, table);
      RunAppend(DecodeState("", []), Bits(init, codes), codes[c], table);
      CodeRun(codes, table, c, init);
      assert init + [c] == s;
    }
  }

  lemma {:induction false} BitsAreBits(s: seq<byte>, codes: map<byte, string>)
    requires forall c :: c in codes ==> IsBits(codes[c])
    ensures IsBits(Bits(s, codes))
    decreases |s|
  {
    if s != [] {
      BitsAreBits(s[..|s| - 1], codes);
    }
  }

  /** The round trip: for a prefix-free table of non-empty '0'/'1' codes
      covering the text, and its reverse lookup, decoding the encoder's
      output gives the text back, provided the bit string fills whole bytes
      (the zero padding of a partial byte is not recorded, so it may decode
      to extra symbols or an error). */
  lemma DecodeEncode(s: seq<byte>, codes: map<byte, string>, table: map<string, byte>)
    requires InverseTable(codes, table) && PrefixFree(codes)
    requires forall c :: c in codes ==> IsBits(codes[c]) && codes[c] != ""
    requires forall k :: 0 <= k < |s| ==> s[k] in codes
    requires |Bits(s, codes)| % 8 == 0
    ensures Decoded(PackAsWritten(Bits(s, codes)), table) == Ok(s)
  {
    var bits := Bits(s, codes);
    PackAsWrittenWholeBytes(bits);
    BitsAreBits(s, codes);
    UnpackPackWhole(bits);
    RunBits(s, codes, table);
  }

  /** Whole bytes of '0'/'1' bits are read back exactly. */
  lemma UnpackPackWhole(bits: string)
    requires IsBits(bits) && |bits| % 8 == 0
    ensures Unpack(Pack(bits)) == bits
  {
    UnpackPack(bits);
    NormalOfBits(bits);
    PadWhole(|bits|);
    assert Zeros(0) == [];
  }

  /** The round trip for the codes `AssignCodes` reads off a tree built
      from a table of two symbols or more, from the root with prefix "":
      decoding the encoder's output with the reverse table gives the text
      back when its bits fill whole bytes. */
  lemma TreeRoundTrip(frequencies: map<byte, int>, root: Node, codes: map<byte, string>, table: map<string, byte>, s: seq<byte>)
    requires Leaves(root) == Seeds(frequencies) && |frequencies| >= 2
    requires codes == AssignCodes(root, "", map[]) && InverseTable(codes, table)
    requires forall k :: 0 <= k < |s| ==> s[k] in frequencies
    requires |Bits(s, codes)| % 8 == 0
    ensures Decoded(PackAsWritten(Bits(s, codes)), table) == Ok(s)
  {
    HuffmanCodes(frequencies, root, codes);
    if IsLeaf(root) {
      LeafRootSingleSymbol(frequencies, root);
      assert false;
    }
    DecodeEncode(s, codes, table);
  }

  /** Bytes whose codes are all "" contribute no bits. */
  lemma {:induction false} EmptyCodesNoBits(s: seq<byte>, codes: map<byte, string>)
    requires forall k :: 0 <= k < |s| ==> CodeOf(codes, s[k]) == ""
    ensures Bits(s, codes) == ""
    decreases |s|
  {
    if s != [] {
      EmptyCodesNoBits(s[..|s| - 1], codes);
    }
  }

  /** A table of a single symbol builds a lone leaf, whose code is "": a
      non-empty text of that symbol encodes to no bytes at all and decodes,
      with any table, to the empty text, so the text is lost. */
  lemma SingleSymbolLost(frequencies: map<byte, int>, root: Node, codes: map<byte, string>, table: map<string, byte>, s: seq<byte>)
    requires WellFormed(root) && Leaves(root) == Seeds(frequencies) && |frequencies| == 1
    requires codes == AssignCodes(root, "", map[])
    requires s != [] && forall k :: 0 <= k < |s| ==> s[k] in frequencies
    ensures codes == map[root.ch := ""]
    ensures Bits(s, codes) == "" && PackAsWritten(Bits(s, codes)) == []
    ensures Decoded(PackAsWritten(Bits(s, codes)), table) == Ok([])
  {
    SingleSymbolLeafRoot(frequencies, root);
    HuffmanCodes(frequencies, root, codes);
    EmptyCodesNoBits(s, codes);
    assert Tail("") == "" && Full("") == "";
    assert Unpack([]) == "";
  }

  // ---------------------------------------------------------------------
  // The trailing-byte shift
  // ---------------------------------------------------------------------

  /** With the code {a:"1"}, "a" is the single bit 1: intended packing
      gives 0x80, `Encode` gives 0x00, and decoding its output with the
      reverse table fails on the leftover bits "00000000". */
  lemma TrailingShiftLosesBits(codes: map<byte, string>, table: map<string, byte>)
    requires codes == map[97 := "1"] && table == map["1" := 97]
    ensures Bits([97], codes) == "1"
    ensures Pack("1") == [0x80]
    ensures PackAsWritten(Bits([97], codes)) == [0x00]
    ensures Decoded(PackAsWritten(Bits([97], codes)), table) == Err(InvalidCode("00000000"))
  {
    BitsSnoc([], 97, codes);
    assert [] + [97] == [97];
    OneBitPacked("1");
    ZeroByteUndecodable(table, ByteBits(0));
  }

  /** The single bit 1 packs to 0x80, and to 0x00 with the extra shift. */
  lemma OneBitPacked(w: string)
    requires w == "1"
    ensures Pack(w) == [0x80] && PackAsWritten(w) == [0x00]
  {
    PlacedSnoc("", '1');
    assert "" + ['1'] == w;
    assert Full(w) == [] && Tail(w) == w;
  }

  /** The byte 0x00 reads as eight zero bits, none of which completes the code "1". */
  lemma ZeroByteUndecodable(table: map<string, byte>, x: string)
    requires table == map["1" := 97] && x == ByteBits(0)
    ensures Decoded([0x00], table) == Err(InvalidCode("00000000"))
  {
    UnpackSingle(0);
    assert x == "00000000";
    forall k | 0 < k <= |x|
      ensures "" + x[..k] !in table
    {
      assert ("" + x[..k])[0] == '0';
    }
    RunMisses(DecodeState("", []), x, table);
    assert "" + x == x;
  }

  /** Bits that never complete a key pile up in the accumulator. */
  lemma {:induction false} RunMisses(st: DecodeState, bits: string, table: map<string, byte>)
    requires forall k :: 0 < k <= |bits| ==> st.current + bits[..k] !in table
    ensures Run(st, bits, table) == DecodeState(st.current + bits, st.decoded)
    decreases |bits|
  {
    if bits == [] {
      assert st.current + bits == st.current;
    } else {
      assert bits[..1] == [bits[0]];
      var next := DecodeState(st.current + [bits[0]], st.decoded);
      assert Step(st, bits[0], table) == next;
      forall k | 0 < k <= |bits[1..]|
        ensures next.current + bits[1..][..k] !in table
      {
        assert next.current + bits[1..][..k] == st.current + bits[..k + 1];
      }
      RunMisses(next, bits[1..], table);
      assert next.current + bits[1..] == st.current + bits;
    }
  }

  /** With the intended packing the partial last byte keeps its bits: the
      stream read back starts with the text's bit string. */
  lemma PackKeepsBits(bits: string)
    requires IsBits(bits)
    ensures |Unpack(Pack(bits))| >= |bits| && Unpack(Pack(bits))[..|bits|] == bits
  {
    UnpackPack(bits);
    NormalOfBits(bits);
  }

  /** A '0'/'1' string reads back as itself. */
  lemma NormalOfBits(w: string)
    requires IsBits(w)
    ensures Normal(w) == w
  {
    forall k | 0 <= k < |w|
      ensures Normal(w)[k] == w[k]
    {
    }
  }
}
