/** EVM words and byte strings: the encoders, and decoders that invert them. */
module EvmWords {
  import opened Wrappers
  import opened Bytes

  const WORD := 32

  const TWO64: nat := 0x1_0000_0000_0000_0000

  // ----- numbers as big.Int gives them -----

  function Abs(v: int): nat {
    if v < 0 then -v else v
  }

  /** The fewest bytes, big-endian; none for zero. */
  function MinBytes(v: nat): seq<Byte> {
    if v == 0 then [] else MinBytes(v / 256) + [v % 256]
  }

  function Pow2(n: nat): (p: nat)
    ensures p > 0
  {
    if n == 0 then 1 else 2 * Pow2(n - 1)
  }

  function BitLen(v: nat): nat {
    if v == 0 then 0 else 1 + BitLen(v / 2)
  }

  function LeftPad(b: seq<Byte>, n: nat): seq<Byte> {
    if n <= |b| then b else Zeros(n - |b|) + b
  }

  lemma {:induction false} BitLenBound(v: nat, n: nat)
    ensures BitLen(v) <= n <==> v < Pow2(n)
  {
    if v > 0 && n > 0 { BitLenBound(v / 2, n - 1); }
  }

  lemma {:induction false} MinBytesBound(v: nat, n: nat)
    ensures |MinBytes(v)| <= n <==> v < Pow256(n)
  {
    if v > 0 && n > 0 { MinBytesBound(v / 256, n - 1); }
  }

  lemma {:induction false} MinBytesValue(v: nat)
    ensures Value(MinBytes(v)) == v
  {
    if v == 0 {
    } else {
      MinBytesValue(v / 256);
      assert MinBytes(v)[..|MinBytes(v)| - 1] == MinBytes(v / 256);
    }
  }

  lemma {:induction false} Pow2Bytes(n: nat)
    ensures Pow2(8 * n) == Pow256(n)
  {
    if n == 0 {
    } else {
      Pow2Bytes(n - 1);
      Pow2Eight(8 * (n - 1));
    }
  }

  lemma Pow2Eight(n: nat)
    ensures Pow2(n + 8) == 256 * Pow2(n)
  {
    assert Pow2(n + 8) == 2 * Pow2(n + 7) == 4 * Pow2(n + 6) == 8 * Pow2(n + 5) == 16 * Pow2(n + 4);
    assert Pow2(n + 4) == 2 * Pow2(n + 3) == 4 * Pow2(n + 2) == 8 * Pow2(n + 1) == 16 * Pow2(n);
  }

  /** Padding a number that fits gives a word with the same value. */
  lemma PaddedWord(v: nat, n: nat)
    requires v < Pow256(n)
    ensures |LeftPad(MinBytes(v), n)| == n && Value(LeftPad(MinBytes(v), n)) == v
  {
    MinBytesBound(v, n);
    MinBytesValue(v);
    if |MinBytes(v)| < n { ValuePadded(n - |MinBytes(v)|, MinBytes(v)); }
  }

  // ----- words of w bytes -----

  /** Two to the power of `8 * w - 1`: the first number whose sign bit is set. */
  function Half(w: nat): nat
    requires w > 0
  {
    Pow2(8 * w - 1)
  }

  lemma HalfIsHalf(w: nat)
    requires w > 0
    ensures Pow256(w) == 2 * Half(w)
  {
    Pow2Bytes(w);
  }

  /** A word read as a signed number. */
  function TwosComplement(b: seq<Byte>): int
    requires |b| > 0
  {
    if Value(b) >= Half(|b|) then Value(b) - Pow256(|b|) else Value(b)
  }

  datatype Error = Overflow | Negative | Panic | NotHex

  function Unsigned(w: nat, bits: nat, val: int): Result<seq<Byte>, Error> {
    if BitLen(Abs(val)) > bits then Err(Overflow)
    else if val < 0 then Err(Negative)
    else Ok(LeftPad(MinBytes(Abs(val)), w))
  }

  function Signed(w: nat, max: nat, val: int): Result<seq<Byte>, Error>
    requires w > 0
  {
    if BitLen(Abs(val)) > 8 * w - 1 then Err(Overflow)
    else if val < 0 then Ok(LeftPad(MinBytes(Abs(val + max + 1)), w))
    else Ok(LeftPad(MinBytes(Abs(val)), w))
  }

  lemma UnsignedInverts(w: nat, bits: nat, val: int)
    requires bits <= 8 * w
    ensures Unsigned(w, bits, val).Ok? <==> 0 <= val < Pow2(bits)
    ensures Unsigned(w, bits, val).Ok? ==>
              |Unsigned(w, bits, val).value| == w && Value(Unsigned(w, bits, val).value) == val
  {
    BitLenBound(Abs(val), bits);
    if 0 <= val < Pow2(bits) {
      Pow2Monotone(bits, 8 * w);
      Pow2Bytes(w);
      PaddedWord(val, w);
    }
  }

  lemma {:induction false} Pow2Monotone(m: nat, n: nat)
    requires m <= n
    ensures Pow2(m) <= Pow2(n)
  {
    if m < n { Pow2Monotone(m, n - 1); }
  }

  lemma SignedInverts(w: nat, max: nat, val: int)
    requires w > 0 && max == Pow256(w) - 1
    ensures Signed(w, max, val).Ok? <==> 0 - Half(w) < val < Half(w)
    ensures Signed(w, max, val).Ok? ==>
              |Signed(w, max, val).value| == w && TwosComplement(Signed(w, max, val).value) == val
  {
    HalfIsHalf(w);
    BitLenBound(Abs(val), 8 * w - 1);
    if 0 - Half(w) < val < 0 {
      PaddedWord(val + Pow256(w), w);
    } else if 0 <= val < Half(w) {
      PaddedWord(val, w);
    }
  }

  lemma SignedInverse(w: nat, max: nat, b: seq<Byte>)
    requires w > 0 && max == Pow256(w) - 1 && |b| == w
    ensures Signed(w, max, TwosComplement(b)) == Ok(b) <==> Value(b) != Half(w)
  {
    HalfIsHalf(w);
    ValueBound(b);
    var val := TwosComplement(b);
    SignedInverts(w, max, val);
    if 0 - Half(w) < val < Half(w) {
      var c := Signed(w, max, val).value;
      ValueBound(c);
      ValueToBytes(b);
      ValueToBytes(c);
    }
  }

  // ----- the encoders of the source -----

  const MAX_UINT256: nat := Pow256(WORD) - 1

  function EVMWordUint128(val: int): Result<seq<Byte>, Error> {
    Unsigned(WORD, 128, val)
  }

  function EVMWordSignedBigInt(val: int): Result<seq<Byte>, Error> {
    Signed(WORD, MAX_UINT256, val)
  }

  /** Refuses by the number of bytes, where the others count bits. */
  function EVMWordBigInt(val: int): Result<seq<Byte>, Error> {
    if val < 0 then Err(Negative)
    else if |MinBytes(Abs(val))| > WORD then Err(Overflow)
    else Ok(LeftPad(MinBytes(Abs(val)), WORD))
  }

  predicate CheckUint256(n: int) {
    !(n < 0 || n >= MAX_UINT256)
  }

  /** The panic of the source is an error here. */
  function Uint256ToBytes(x: int): Result<seq<Byte>, Error> {
    if x > MAX_UINT256 then Err(Overflow)
    else
      var b := LeftPad(MinBytes(Abs(x)), WORD);
      if x != Value(b) then Err(Panic) else Ok(b)
  }

  function Uint256ToBytes32(n: int): Result<seq<Byte>, Error> {
    if BitLen(Abs(n)) > 256 then Err(Panic) else Ok(LeftPad(MinBytes(Abs(n)), 32))
  }

  /** The signed range is symmetric: it leaves out the least number of the type. */
  lemma SignedWord(val: int)
    ensures EVMWordSignedBigInt(val).Ok? <==> 0 - Half(WORD) < val < Half(WORD)
    ensures EVMWordSignedBigInt(val).Err? ==> EVMWordSignedBigInt(val).error == Overflow
    ensures EVMWordSignedBigInt(val).Ok? ==>
              |EVMWordSignedBigInt(val).value| == WORD && TwosComplement(EVMWordSignedBigInt(val).value) == val
  {
    SignedInverts(WORD, MAX_UINT256, val);
  }

  /** Reading 32 bytes as a signed number and encoding it gives them back, except for the least number. */
  lemma SignedWordInverse(b: seq<Byte>)
    requires |b| == WORD
    ensures EVMWordSignedBigInt(TwosComplement(b)) == Ok(b) <==> Value(b) != Half(WORD)
  {
    SignedInverse(WORD, MAX_UINT256, b);
  }

  lemma UnsignedWord(val: int)
    ensures EVMWordBigInt(val).Ok? <==> 0 <= val <= MAX_UINT256
    ensures EVMWordBigInt(val) == Err(Negative) <==> val < 0
    ensures EVMWordBigInt(val) == Err(Overflow) <==> val > MAX_UINT256
    ensures EVMWordBigInt(val).Ok? ==> |EVMWordBigInt(val).value| == WORD && Value(EVMWordBigInt(val).value) == val
  {
    MinBytesBound(Abs(val), WORD);
    if 0 <= val <= MAX_UINT256 { PaddedWord(val, WORD); }
  }

  /** Every word is the encoding of its value, and of no other. */
  lemma UnsignedWordInverse(b: seq<Byte>, val: int)
    requires |b| == WORD
    ensures EVMWordBigInt(val) == Ok(b) <==> val == Value(b)
  {
    ValueBound(b);
    UnsignedWord(val);
    if val == Value(b) {
      ValueToBytes(b);
      ValueToBytes(EVMWordBigInt(val).value);
    }
  }

  lemma Uint128Word(val: int)
    ensures EVMWordUint128(val).Ok? <==> 0 <= val < Pow2(128)
    ensures EVMWordUint128(val) == Err(Overflow) <==> Abs(val) >= Pow2(128)
    ensures EVMWordUint128(val) == Err(Negative) <==> 0 - Pow2(128) < val < 0
    ensures EVMWordUint128(val).Ok? ==> |EVMWordUint128(val).value| == WORD && Value(EVMWordUint128(val).value) == val
  {
    BitLenBound(Abs(val), 128);
    UnsignedInverts(WORD, 128, val);
  }

  /**
   `Uint256ToBytes` succeeds exactly on the uint256 range and panics exactly on negative numbers, so never on
   a number that `CheckUint256` lets through. `CheckUint256` refuses one number that could be encoded.
   */
  lemma CheckedRoundTrip(n: int)
    ensures Uint256ToBytes(n).Ok? <==> 0 <= n <= MAX_UINT256
    ensures Uint256ToBytes(n) == Err(Panic) <==> n < 0
    ensures Uint256ToBytes(n) == Err(Overflow) <==> n > MAX_UINT256
    ensures Uint256ToBytes(n).Ok? ==> |Uint256ToBytes(n).value| == WORD && Value(Uint256ToBytes(n).value) == n
    ensures CheckUint256(n) ==> Uint256ToBytes(n).Ok?
    ensures Uint256ToBytes(n).Ok? && !CheckUint256(n) <==> n == MAX_UINT256
  {
    if 0 <= n <= MAX_UINT256 { PaddedWord(n, WORD); }
  }

  /** `raw` is what `hexutil.Decode` makes of the text. */
  function HexToUint256(raw: Option<seq<Byte>>): Result<nat, Error> {
    match raw
    case Some(b) => if CheckUint256(Value(b)) then Ok(Value(b)) else Err(Overflow)
    case None => Err(NotHex)
  }

  /** What is no hexadecimal is refused as such, and a number is refused only for being too large. */
  lemma HexRefuses(raw: Option<seq<Byte>>)
    ensures HexToUint256(raw) == Err(NotHex) <==> raw == None
    ensures HexToUint256(raw) == Err(Overflow) <==> raw.Some? && Value(raw.value) >= MAX_UINT256
    ensures HexToUint256(raw).Ok? ==> raw.Some? && HexToUint256(raw).value == Value(raw.value)
  {
    if raw.Some? { HexRoundTrip(raw.value); }
  }

  /** A number read from hexadecimal encodes as the bytes it was read from, less leading zeros or with more. */
  lemma HexRoundTrip(raw: seq<Byte>)
    ensures HexToUint256(Some(raw)).Ok? <==> Value(raw) < MAX_UINT256
    ensures HexToUint256(Some(raw)).Ok? ==>
              var word := Uint256ToBytes(HexToUint256(Some(raw)).value);
              && word.Ok? && Value(word.value) == Value(raw)
              && (|raw| <= WORD ==> word.value == Zeros(WORD - |raw|) + raw)
              && (|raw| >= WORD ==> raw == Zeros(|raw| - WORD) + word.value)
  {
    if Value(raw) < MAX_UINT256 {
      CheckedRoundTrip(Value(raw));
      var word := Uint256ToBytes(Value(raw)).value;
      if |raw| <= WORD { PaddedIsUnique(word, raw); }
      if |raw| >= WORD { PaddedIsUnique(raw, word); }
    }
  }

  lemma PaddedIsUnique(b: seq<Byte>, c: seq<Byte>)
    requires |b| >= |c| && Value(b) == Value(c)
    ensures b == Zeros(|b| - |c|) + c
  {
    ValuePadded(|b| - |c|, c);
    ValueToBytes(b);
    ValueToBytes(Zeros(|b| - |c|) + c);
  }

  /** `Uint256ToBytes32` looks at the absolute value only: it is right exactly when the number is not negative. */
  lemma Bytes32Word(n: int)
    ensures Uint256ToBytes32(n).Ok? <==> Abs(n) <= MAX_UINT256
    ensures Uint256ToBytes32(n).Err? ==> Uint256ToBytes32(n).error == Panic
    ensures Uint256ToBytes32(n).Ok? ==>
              |Uint256ToBytes32(n).value| == 32 && Value(Uint256ToBytes32(n).value) == Abs(n)
  {
    WordBits(Abs(n), WORD);
    if Abs(n) <= MAX_UINT256 { PaddedWord(Abs(n), WORD); }
  }

  lemma WordBits(v: nat, w: nat)
    ensures BitLen(v) <= 8 * w <==> v < Pow256(w)
  {
    BitLenBound(v, 8 * w);
    Pow2Bytes(w);
  }

  // ----- uint64 words and byte strings -----

  lemma ModStep(x: nat, b: Byte)
    ensures (256 * (x % TWO64) + b) % TWO64 == (256 * x + b) % TWO64
  {
    assert x == TWO64 * (x / TWO64) + x % TWO64;
    assert 256 * x + b == TWO64 * (256 * (x / TWO64)) + (256 * (x % TWO64) + b);
    ModAdd(256 * (x / TWO64), 256 * (x % TWO64) + b);
  }

  lemma ModAdd(k: nat, y: nat)
    ensures (TWO64 * k + y) % TWO64 == y % TWO64
  {
  }

  lemma WrapStep(x: nat, b: Byte)
    ensures (x % TWO64 * 256 % TWO64 + b) % TWO64 == (256 * x + b) % TWO64
  {
    ModStep(x, b);
    var y := x % TWO64 * 256;
    assert y + b == TWO64 * (y / TWO64) + (y % TWO64 + b);
    ModAdd(y / TWO64, y % TWO64 + b);
  }

  /** The shift and the sum wrap around at 64 bits. */
  method EVMBytesToUint64(buf: seq<Byte>) returns (result: nat)
    ensures result == Value(buf) % TWO64
  {
    result := 0;
    for i := 0 to |buf|
      invariant result == Value(buf[..i]) % TWO64
    {
      WrapStep(Value(buf[..i]), buf[i]);
      assert buf[..i + 1][..i] == buf[..i];
      result := (result * 256 % TWO64 + buf[i]) % TWO64;
    }
    assert buf[..|buf|] == buf;
  }

  lemma ToBytesZero(n: nat)
    ensures ToBytes(0, n) == Zeros(n)
  {
    if n == 0 {
    } else {
      ToBytesZero(n - 1);
    }
  }

  /** Writes the low 8 bytes of a zeroed word. */
  method EVMWordUint64(val: nat) returns (word: array<Byte>)
    requires val < TWO64
    ensures fresh(word) && word[..] == ToBytes(val, WORD)
  {
    word := new Byte[WORD](_ => 0);
    var v: nat, i: nat := val, WORD;
    TWO64IsBytes();
    assert word[i..] == [];
    while i > WORD - 8
      invariant WORD - 8 <= i <= WORD && v < Pow256(i - (WORD - 8))
      invariant forall k: nat :: k < i ==> word[k] == 0
      invariant ToBytes(val, WORD) == ToBytes(v, i) + word[i..]
    {
      i := i - 1;
      word[i] := v % 256;
      assert word[i..] == [v % 256] + word[i + 1..];
      v := v / 256;
    }
    ToBytesZero(i);
    assert word[..] == Zeros(i) + word[i..];
  }

  function RoundToEVMWordBorder(length: nat): nat {
    var mod := length % WORD;
    if mod == 0 then 0 else WORD - mod
  }

  function EVMEncodeBytes(input: seq<Byte>): seq<Byte> {
    ToBytes(|input|, WORD) + input + Zeros(RoundToEVMWordBorder(|input|))
  }

  function EncodeAll(inputs: seq<seq<Byte>>): seq<Byte> {
    if |inputs| == 0 then [] else EVMEncodeBytes(inputs[0]) + EncodeAll(inputs[1..])
  }

  /** Reads a length word as `EVMBytesToUint64` does, then that many bytes, then the padding; until nothing is left. */
  function DecodeAll(b: seq<Byte>): Option<seq<seq<Byte>>>
    decreases |b|
  {
    if |b| == 0 then Some([])
    else if |b| < WORD then None
    else
      var n := Value(b[..WORD]) % TWO64;
      var end := WORD + n + RoundToEVMWordBorder(n);
      if |b| < end then None
      else match DecodeAll(b[end..])
        case Some(rest) => Some([b[WORD..WORD + n]] + rest)
        case None => None
  }

  lemma TWO64IsBytes()
    ensures TWO64 == Pow256(8)
  {
    assert Pow256(2) == 0x1_0000;
    Pow256Add(2, 2);
    Pow256Add(4, 4);
  }

  lemma RoundUp(n: nat)
    ensures (WORD + n + RoundToEVMWordBorder(n)) % WORD == 0 && RoundToEVMWordBorder(n) < WORD
  {
  }

  lemma WordsAdd(a: nat, b: nat)
    requires a % WORD == 0 && b % WORD == 0
    ensures (a + b) % WORD == 0
  {
  }

  lemma LengthWord(n: nat)
    requires n < TWO64
    ensures Value(ToBytes(n, WORD)) == n
  {
    TWO64IsBytes();
    Pow256Monotone(8, WORD);
    ToBytesValue(n, WORD);
  }

  /** One encoding is a length word, the bytes, and fewer than 32 zeros up to the next multiple of 32. */
  lemma EncodedBytes(input: seq<Byte>)
    requires |input| < TWO64
    ensures var b, pad := EVMEncodeBytes(input), RoundToEVMWordBorder(|input|);
            && |b| == WORD + |input| + pad && |b| % WORD == 0 && pad < WORD
            && Value(b[..WORD]) == |input| && b[WORD..WORD + |input|] == input && b[WORD + |input|..] == Zeros(pad)
  {
    var word, pad := ToBytes(|input|, WORD), RoundToEVMWordBorder(|input|);
    var b := word + input + Zeros(pad);
    assert b[..WORD] == word && b[WORD..WORD + |input|] == input && b[WORD + |input|..] == Zeros(pad);
    LengthWord(|input|);
    RoundUp(|input|);
  }

  lemma DecodeFirst(b: seq<Byte>, n: nat)
    requires |b| >= WORD && Value(b[..WORD]) == n && n < TWO64
    requires |b| >= WORD + n + RoundToEVMWordBorder(n)
    ensures DecodeAll(b) ==
            match DecodeAll(b[WORD + n + RoundToEVMWordBorder(n)..])
            case Some(more) => Some([b[WORD..WORD + n]] + more)
            case None => None
  {
    assert n % TWO64 == n;
  }

  lemma DecodeStep(input: seq<Byte>, rest: seq<Byte>)
    requires |input| < TWO64
    ensures DecodeAll(EVMEncodeBytes(input) + rest) ==
            match DecodeAll(rest)
            case Some(more) => Some([input] + more)
            case None => None
  {
    var head := EVMEncodeBytes(input);
    var b := head + rest;
    EncodedBytes(input);
    assert b[..WORD] == head[..WORD];
    assert b[WORD..WORD + |input|] == head[WORD..WORD + |input|];
    assert b[|head|..] == rest;
    DecodeFirst(b, |input|);
  }

  lemma {:induction false} EncodingsAreWords(inputs: seq<seq<Byte>>)
    ensures |EncodeAll(inputs)| % WORD == 0
  {
    if |inputs| == 0 {
    } else {
      var first, more := EVMEncodeBytes(inputs[0]), EncodeAll(inputs[1..]);
      EncodingsAreWords(inputs[1..]);
      EncodingIsWords(inputs[0]);
      WordsAdd(|first|, |more|);
      assert |EncodeAll(inputs)| == |first + more| == |first| + |more|;
    }
  }

  lemma EncodingIsWords(input: seq<Byte>)
    ensures |EVMEncodeBytes(input)| % WORD == 0
  {
    RoundUp(|input|);
  }

  /**
   Any list of byte strings is recovered from the concatenation of its encodings, so no two lists have the
   same one.
   */
  lemma {:induction false} DecodeAllInverts(inputs: seq<seq<Byte>>)
    requires forall x <- inputs :: |x| < TWO64
    ensures DecodeAll(EncodeAll(inputs)) == Some(inputs)
  {
    if |inputs| == 0 {
    } else {
      var first, others := inputs[0], inputs[1..];
      DecodeAllInverts(others);
      assert first in inputs;
      DecodeStep(first, EncodeAll(others));
      assert [first] + others == inputs;
    }
  }
}
