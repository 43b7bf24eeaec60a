/** The FPC stream: what an encoder writes for a sequence of 64-bit values, and what a reader makes
    of a stream, stated on sequences. */
module FpcFormat {
  import opened Wrappers
  import opened Words
  import opened FpcPredictor

  /** Values per block: a multiple of 16 whose longest block still fits the 24-bit length. */
  type BlockSize = b: int | 0 < b && b % 16 == 0 && 17 * b + 12 < 0x200_0000 witness 16

  function LongestBlock(b: int): int {
    6 + b / 2 + 8 * b
  }

  /** Bytes of the buffer that holds one block, on either side. */
  function BlockBufferSize(b: BlockSize): nat {
    6 + b / 2 + b * 8 + 2
  }

  lemma BlockSizeIsEven(b: BlockSize)
    ensures b % 2 == 0
  {
    var h := b / 16;
    assert b == 2 * (8 * h);
  }

  lemma HalfBlock(b: BlockSize)
    ensures b / 2 == 8 * (b / 16)
  {
    var h := b / 16;
    assert b == 2 * (8 * h);
  }

  // ----- What an encoder writes -----

  function Init<T>(s: seq<T>): seq<T>
    requires s != []
  {
    s[..|s| - 1]
  }

  function Last<T>(s: seq<T>): T
    requires s != []
  {
    s[|s| - 1]
  }

  /** The predictor after the encoder has seen `vals`. */
  function After(p: Predictor, vals: seq<Word>): (q: Predictor)
    requires p.Valid()
    ensures q.Valid()
  {
    if vals == [] then p else EncoderUpdate(After(p, Init(vals)), Last(vals))
  }

  /** The residual bytes of one value. */
  function ResidualBytes(p: Predictor, val: Word): (s: seq<Byte>)
    ensures |s| == Cost(Residual(p, val)) <= 8
  {
    Bytes(Residual(p, val))[..Cost(Residual(p, val))]
  }

  /** The residual bytes of a sequence of values. */
  function Payload(p: Predictor, vals: seq<Word>): (s: seq<Byte>)
    requires p.Valid()
    ensures |s| <= 8 * |vals|
  {
    if vals == [] then [] else Payload(p, Init(vals)) + ResidualBytes(After(p, Init(vals)), Last(vals))
  }

  function NibbleAt(p: Predictor, vals: seq<Word>, k: nat): Byte
    requires p.Valid() && k < |vals|
  {
    Nibble(After(p, vals[..k]), vals[k])
  }

  function CodeByte(p: Predictor, vals: seq<Word>, i: nat): Byte
    requires p.Valid() && 2 * i + 1 < |vals|
  {
    PairByte(NibbleAt(p, vals, 2 * i), NibbleAt(p, vals, 2 * i + 1))
  }

  /** The code bytes, one for every two values. */
  function Codes(p: Predictor, vals: seq<Word>): (s: seq<Byte>)
    requires p.Valid()
    ensures |s| == |vals| / 2
  {
    seq(|vals| / 2, i requires 0 <= i < |vals| / 2 => CodeByte(p, vals, i))
  }

  /** An odd block is encoded with one more value, whatever its buffer holds after the last one. */
  function Padded(vals: seq<Word>, slot: Word): (s: seq<Word>)
    ensures |s| == (|vals| + 1) / 2 * 2
  {
    if |vals| % 2 == 0 then vals else vals + [slot]
  }

  /** A 24-bit number in a block header. */
  function Header24(n: nat): (s: seq<Byte>)
    ensures |s| == 3
  {
    hide ByteOf;
    [ByteOf(n % 256), ByteOf(n / 256 % 256), ByteOf(n / 65536 % 256)]
  }

  lemma ValueOfThree(x: Byte, y: Byte, z: Byte)
    ensures Value([x, y, z]) == x as nat + 256 * (y as nat) + 65536 * (z as nat)
  {
    assert [x, y, z][1..] == [y, z] && [y, z][1..] == [z] && [z][1..] == [];
    assert Value([z]) == z as nat;
    assert Value([y, z]) == y as nat + 256 * Value([z]);
  }

  lemma Header24Value(n: nat)
    requires n < 0x100_0000
    ensures Value(Header24(n)) == n
  {
    hide ByteOf, Value;
    ValueOfThree(ByteOf(n % 256), ByteOf(n / 256 % 256), ByteOf(n / 65536 % 256));
    HeaderDigits(n);
  }

  lemma HeaderDigits(n: nat)
    requires n < 0x100_0000
    ensures n % 256 + 256 * (n / 256 % 256) + 65536 * (n / 65536 % 256) == n
  {
    TwoBytesOff(n);
    DigitStep(n / 256, 256);
    DigitStep(n, 0x1_0000);
    assert n % 0x100_0000 == n;
  }

  /** A block: how many values, how long the block is, the code bytes, the residual bytes. */
  function EncodeBlock(p: Predictor, vals: seq<Word>, slot: Word): (s: seq<Byte>)
    requires p.Valid()
    ensures |s| == 6 + (|vals| + 1) / 2 + |Payload(p, vals)|
  {
    Header24(|vals|) + Header24(6 + (|vals| + 1) / 2 + |Payload(p, vals)|) + Codes(p, Padded(vals, slot)) + Payload(p, vals)
  }

  function BlockLength(b: BlockSize, vals: seq<Word>): (n: nat)
    ensures n <= |vals| && n <= b
    ensures vals != [] ==> 0 < n
  {
    if |vals| < b then |vals| else b
  }

  function EncodeBlocks(b: BlockSize, p: Predictor, vals: seq<Word>, slot: Word): (s: seq<Byte>)
    requires p.Valid()
    decreases |vals|
  {
    if vals == [] then [] else
      var n := BlockLength(b, vals);
      EncodeBlock(p, vals[..n], slot) + EncodeBlocks(b, After(p, vals[..n]), vals[n..], slot)
  }

  /** The whole words of a byte buffer; up to seven bytes at its end are left out. */
  function WordsOf(input: seq<Byte>): (vals: seq<Word>)
    ensures |vals| == |input| / 8
  {
    seq(|input| / 8, i requires 0 <= i < |input| / 8 => Join(input[8 * i..8 * i + 8]))
  }

  function Encode(b: BlockSize, level: Byte, input: seq<Byte>, slot: Word): (s: seq<Byte>)
    requires level <= 62
  {
    [level] + EncodeBlocks(b, Initial(level), WordsOf(input), slot)
  }

  // ----- What a reader makes of a stream -----

  /** A reader inside a block: its predictor, its offset, and the values so far. */
  datatype Cursor = Cursor(p: Predictor, pos: nat, vals: seq<Word>)

  function NibbleOf(body: seq<Byte>, k: nat): (n: Byte)
    requires k / 2 < |body|
  {
    if k % 2 == 0 then HighNibble(body[k / 2]) else LowNibble(body[k / 2])
  }

  function ReadValue(body: seq<Byte>, pos: nat, p: Predictor, nibble: Byte): Option<Word> {
    var n := Width(LengthBits(nibble));
    WidthValues(LengthBits(nibble));
    if pos + n > |body| then None
    else Some(Xor(FromLow(body[pos..pos + n]), Prediction(p, SecondBit(nibble))))
  }

  /** The first `k` values of a block of `n`, if their residuals lie inside the body. */
  function ReadValues(p: Predictor, body: seq<Byte>, n: nat, k: nat): (c: Option<Cursor>)
    requires p.Valid() && (n + 1) / 2 <= |body| && k <= n
    ensures c.Some? ==> c.value.p.Valid() && |c.value.vals| == k && (n + 1) / 2 <= c.value.pos <= |body|
  {
    if k == 0 then Some(Cursor(p, (n + 1) / 2, [])) else
      match ReadValues(p, body, n, k - 1)
      case None => None
      case Some(c) =>
        var nibble := NibbleOf(body, k - 1);
        match ReadValue(body, c.pos, c.p, nibble)
        case None => None
        case Some(val) => Some(Cursor(DecoderUpdate(c.p, val), c.pos + Width(LengthBits(nibble)), c.vals + [val]))
  }

  /** Where the reader of a block of `n` stands when it looks for the next header: an odd block has
      a code for one more value. */
  function EndOfBlock(body: seq<Byte>, n: nat, pos: nat): nat
    requires (n + 1) / 2 <= |body|
  {
    if n % 2 == 0 then pos else pos + Width(LengthBits(NibbleOf(body, n)))
  }

  function Min(a: nat, b: nat): nat {
    if a < b then a else b
  }

  /** The values of a stream from the end of a block header on. The header said `n` values and
      `len` bytes; None where the reader's assertions or its buffer do not allow the stream. */
  function ReadBlocks(b: BlockSize, p: Predictor, stream: seq<Byte>, n: nat, len: nat): (vals: Option<seq<Word>>)
    requires p.Valid()
    decreases |stream|
  {
    var end := Min(|stream|, len);
    if n > b || end > BlockBufferSize(b) || end + 6 < len || (n + 1) / 2 > end then None else
      var body := stream[..end];
      match ReadValues(p, body, n, n)
      case None => None
      case Some(c) =>
        var next := EndOfBlock(body, n, c.pos);
        if end < next + 6 then Some(c.vals)
        else if n % 2 == 1 then None
        else
          var n', len' := Value(body[next..next + 3]), Value(body[next + 3..next + 6]);
          if n' == 0 then Some(c.vals) else
            match ReadBlocks(b, c.p, stream[end..], n', len')
            case None => None
            case Some(rest) => Some(c.vals + rest)
  }

  /** The values of a whole stream of at least seven bytes. */
  function Parse(b: BlockSize, stream: seq<Byte>): Option<seq<Word>>
    requires |stream| >= 7
  {
    if stream[0] > 62 then None
    else ReadBlocks(b, Initial(stream[0]), stream[7..], Value(stream[1..4]), Value(stream[4..7]))
  }

  /** The bytes that a reader writes out. */
  function BytesOf(vals: seq<Word>): (s: seq<Byte>)
    ensures |s| == 8 * |vals|
  {
    if vals == [] then [] else BytesOf(Init(vals)) + Bytes(Last(vals))
  }

  datatype FpcError = NotInFormat | Unreadable

  /** What the in-memory decoder answers: an error for fewer than seven bytes, otherwise the bytes of
      the values. Unreadable streams are those its assertions or its buffer rule out. */
  function Decode(b: BlockSize, stream: seq<Byte>): Result<seq<Byte>, FpcError> {
    if |stream| < 7 then Failure(NotInFormat) else
      match Parse(b, stream)
      case None => Failure(Unreadable)
      case Some(vals) => Success(BytesOf(vals))
  }
}
