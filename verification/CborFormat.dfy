/**
 A CBOR decoder. It is a reference for RFC 7049, sections 2.1 to 2.4; the items it is proved to
 decode range over every well-formed encoding: any head width, definite or indefinite length.
 */
module CborFormat {
  import opened Wrappers
  import opened Bytes

  // ----- Go values -----

  /** A map key a Go map can hold; only text keys matter to coercion. */
  datatype Key = TextKey(text: seq<Byte>) | OtherKey(major: nat, n: nat)

  datatype Val =
    | Uint(n: nat)
    | Nint(n: nat)                         // stands for -1 - n, and fits 64 bits with its sign
    | ByteString(data: seq<Byte>)
    | Text(text: seq<Byte>)
    | List(items: seq<Val>)
    | InterfaceMap(entries: map<Key, Val>)
    | StringMap(fields: map<seq<Byte>, Val>)
    | Big(value: int)
    | BigPointer(value: int)
    | Tagged(tag: nat, content: Val)
    | Simple(width: nat, n: nat)           // booleans, null, undefined, floats by their bits

  // ----- encodings -----

  /** How the argument of a head is written: in the head itself, or in 1, 2, 4 or 8 bytes behind it. */
  datatype Width = W0 | W1 | W2 | W4 | W8

  function Size(w: Width): nat {
    match w
    case W0 => 0
    case W1 => 1
    case W2 => 2
    case W4 => 4
    case W8 => 8
  }

  predicate Fits(w: Width, n: nat) {
    if w.W0? then n < 24 else n < Pow256(Size(w))
  }

  function Info(w: Width, n: nat): (i: nat)
    requires Fits(w, n)
    ensures i < 28
  {
    match w
    case W0 => n
    case W1 => 24
    case W2 => 25
    case W4 => 26
    case W8 => 27
  }

  function Head(major: nat, w: Width, n: nat): seq<Byte>
    requires major < 8 && Fits(w, n)
  {
    [32 * major + Info(w, n)] + ToBytes(n, Size(w))
  }

  const BREAK: Byte := 0xff

  datatype Chunk = Chunk(w: Width, data: seq<Byte>)

  /** An encoded item, down to the choices the encoder is free to make. */
  datatype Item =
    | UintItem(w: Width, n: nat)
    | NintItem(w: Width, n: nat)
    | BytesItem(w: Width, data: seq<Byte>)
    | BytesChunks(chunks: seq<Chunk>)
    | TextItem(w: Width, data: seq<Byte>)
    | TextChunks(chunks: seq<Chunk>)
    | ListItem(w: Width, items: seq<Item>)
    | ListToBreak(items: seq<Item>)
    | MapItem(w: Width, pairs: seq<Pair>)
    | MapToBreak(pairs: seq<Pair>)
    | TagItem(w: Width, n: nat, content: Item)
    | SimpleItem(w: Width, n: nat)

  datatype Pair = Pair(key: Item, value: Item)

  /** The arguments fit their widths; a simple value in a second byte is at least 32. */
  predicate WellFormed(i: Item) {
    match i
    case UintItem(w, n) => Fits(w, n)
    case NintItem(w, n) => Fits(w, n)
    case BytesItem(w, data) => Fits(w, |data|)
    case BytesChunks(chunks) => forall c <- chunks :: Fits(c.w, |c.data|)
    case TextItem(w, data) => Fits(w, |data|)
    case TextChunks(chunks) => forall c <- chunks :: Fits(c.w, |c.data|)
    case ListItem(w, items) => Fits(w, |items|) && forall x <- items :: WellFormed(x)
    case ListToBreak(items) => forall x <- items :: WellFormed(x)
    case MapItem(w, pairs) => Fits(w, |pairs|) && forall p <- pairs :: WellFormedPair(p)
    case MapToBreak(pairs) => forall p <- pairs :: WellFormedPair(p)
    case TagItem(w, n, content) => Fits(w, n) && WellFormed(content)
    case SimpleItem(w, n) => Fits(w, n) && (w.W1? ==> n >= 32)
  }

  predicate WellFormedPair(p: Pair) {
    WellFormed(p.key) && WellFormed(p.value)
  }

  function Encode(i: Item): seq<Byte>
    requires WellFormed(i)
    decreases i, 0
  {
    match i
    case UintItem(w, n) => Head(0, w, n)
    case NintItem(w, n) => Head(1, w, n)
    case BytesItem(w, data) => Head(2, w, |data|) + data
    case BytesChunks(chunks) => [0x5f] + EncodeChunks(2, chunks) + [BREAK]
    case TextItem(w, data) => Head(3, w, |data|) + data
    case TextChunks(chunks) => [0x7f] + EncodeChunks(3, chunks) + [BREAK]
    case ListItem(w, items) => Head(4, w, |items|) + EncodeItems(items)
    case ListToBreak(items) => [0x9f] + EncodeItems(items) + [BREAK]
    case MapItem(w, pairs) => Head(5, w, |pairs|) + EncodePairs(pairs)
    case MapToBreak(pairs) => [0xbf] + EncodePairs(pairs) + [BREAK]
    case TagItem(w, n, content) => Head(6, w, n) + Encode(content)
    case SimpleItem(w, n) => Head(7, w, n)
  }

  function EncodeChunks(major: nat, chunks: seq<Chunk>): seq<Byte>
    requires major < 8 && forall c <- chunks :: Fits(c.w, |c.data|)
  {
    if |chunks| == 0 then []
    else Head(major, chunks[0].w, |chunks[0].data|) + chunks[0].data + EncodeChunks(major, chunks[1..])
  }

  function EncodeItems(items: seq<Item>): seq<Byte>
    requires forall x <- items :: WellFormed(x)
    decreases items, 1
  {
    if |items| == 0 then [] else Encode(items[0]) + EncodeItems(items[1..])
  }

  function EncodePairs(pairs: seq<Pair>): seq<Byte>
    requires forall p <- pairs :: WellFormedPair(p)
    decreases pairs, 1
  {
    if |pairs| == 0 then [] else EncodePair(pairs[0]) + EncodePairs(pairs[1..])
  }

  function EncodePair(p: Pair): seq<Byte>
    requires WellFormedPair(p)
    decreases p, 1
  {
    Encode(p.key) + Encode(p.value)
  }

  // ----- what an item means -----

  function Joined(chunks: seq<Chunk>): seq<Byte> {
    if |chunks| == 0 then [] else chunks[0].data + Joined(chunks[1..])
  }

  /** Text, numbers of 64 bits and simple values can be keys. */
  function AsKey(v: Val): Option<Key> {
    match v
    case Text(text) => Some(TextKey(text))
    case Uint(n) => Some(OtherKey(0, n))
    case Nint(n) => Some(OtherKey(1, n))
    case Simple(w, n) => Some(OtherKey(7 + w, n))
    case _ => None
  }

  /** A negative integer below the least of 64 bits is a big integer. */
  function Negative(n: nat): Val {
    if n < 0x8000_0000_0000_0000 then Nint(n) else Big(-1 - n)
  }

  /** Tags 2 and 3 are bignums and want a byte string. */
  function WithTag(n: nat, v: Val): Option<Val> {
    if n == 2 || n == 3 then
      if v.ByteString? then Some(Big(if n == 2 then Value(v.data) else -1 - Value(v.data))) else None
    else Some(Tagged(n, v))
  }

  function Meaning(i: Item): Option<Val>
    decreases i, 0
  {
    match i
    case UintItem(_, n) => Some(Uint(n))
    case NintItem(_, n) => Some(Negative(n))
    case BytesItem(_, data) => Some(ByteString(data))
    case BytesChunks(chunks) => Some(ByteString(Joined(chunks)))
    case TextItem(_, data) => Some(Text(data))
    case TextChunks(chunks) => Some(Text(Joined(chunks)))
    case ListItem(_, items) => ListOf(ItemMeanings(items, []))
    case ListToBreak(items) => ListOf(ItemMeanings(items, []))
    case MapItem(_, pairs) => MapOf(PairMeanings(pairs, map[]))
    case MapToBreak(pairs) => MapOf(PairMeanings(pairs, map[]))
    case TagItem(_, n, content) =>
      match Meaning(content) {
        case Some(v) => WithTag(n, v)
        case None => None
      }
    case SimpleItem(w, n) => Some(Simple(Size(w), n))
  }

  function ListOf(items: Option<seq<Val>>): Option<Val> {
    match items
    case Some(vs) => Some(List(vs))
    case None => None
  }

  function MapOf(entries: Option<map<Key, Val>>): Option<Val> {
    match entries
    case Some(m) => Some(InterfaceMap(m))
    case None => None
  }

  function ItemMeanings(items: seq<Item>, before: seq<Val>): Option<seq<Val>>
    decreases items, 1
  {
    if |items| == 0 then Some(before)
    else match Meaning(items[0])
      case Some(v) => ItemMeanings(items[1..], before + [v])
      case None => None
  }

  /** Later pairs overwrite earlier ones with the same key. */
  function PairMeanings(pairs: seq<Pair>, before: map<Key, Val>): Option<map<Key, Val>>
    decreases pairs, 1
  {
    if |pairs| == 0 then Some(before)
    else match PairMeaning(pairs[0])
      case Some((k, v)) => PairMeanings(pairs[1..], before[k := v])
      case None => None
  }

  function PairMeaning(p: Pair): Option<(Key, Val)>
    decreases p, 1
  {
    match (Meaning(p.key), Meaning(p.value))
    case (Some(k), Some(v)) => if AsKey(k).Some? then Some((AsKey(k).value, v)) else None
    case _ => None
  }

  // ----- the decoder -----

  /** The argument of a head; `None` stands for an indefinite length, or a break under major type 7. */
  datatype HeadOf = HeadOf(major: nat, w: Width, arg: Option<nat>, rest: seq<Byte>)

  function WidthOf(info: nat): Option<Width> {
    if info < 24 then Some(W0)
    else if info == 24 then Some(W1)
    else if info == 25 then Some(W2)
    else if info == 26 then Some(W4)
    else if info == 27 then Some(W8)
    else None
  }

  function DecodeHead(b: seq<Byte>): (r: Option<HeadOf>)
    ensures r.Some? ==> |r.value.rest| < |b|
  {
    if |b| == 0 then None
    else
      var major := b[0] / 32;
      var info := b[0] % 32;
      if info == 31 then Some(HeadOf(major, W0, None, b[1..]))
      else match WidthOf(info)
        case None => None
        case Some(w) =>
          if |b| < 1 + Size(w) then None
          else
            var n := if w.W0? then info else Value(b[1..1 + Size(w)]);
            Some(HeadOf(major, w, Some(n), b[1 + Size(w)..]))
  }

  /** One item, and the bytes behind it. */
  function Decode(b: seq<Byte>): (r: Option<(Val, seq<Byte>)>)
    ensures r.Some? ==> |r.value.1| < |b|
    decreases |b|, 0, 0
  {
    match DecodeHead(b)
    case Some(h) => DecodeBody(h)
    case None => None
  }

  function DecodeBody(h: HeadOf): (r: Option<(Val, seq<Byte>)>)
    ensures r.Some? ==> |r.value.1| <= |h.rest|
    decreases |h.rest|, 3, 0
  {
    var rest := h.rest;
    match (h.major, h.arg)
    case (0, Some(n)) => Some((Uint(n), rest))
    case (1, Some(n)) => Some((Negative(n), rest))
    case (2, Some(n)) => if n <= |rest| then Some((ByteString(rest[..n]), rest[n..])) else None
    case (3, Some(n)) => if n <= |rest| then Some((Text(rest[..n]), rest[n..])) else None
    case (2, None) =>
      (match DecodeChunks(2, rest, [])
       case Some((data, rest')) => Some((ByteString(data), rest'))
       case None => None)
    case (3, None) =>
      (match DecodeChunks(3, rest, [])
       case Some((data, rest')) => Some((Text(data), rest'))
       case None => None)
    case (4, _) =>
      (match DecodeItems(h.arg, rest, [])
       case Some((vs, rest')) => Some((List(vs), rest'))
       case None => None)
    case (5, _) =>
      (match DecodePairs(h.arg, rest, map[])
       case Some((m, rest')) => Some((InterfaceMap(m), rest'))
       case None => None)
    case (6, Some(n)) =>
      (match Decode(rest)
       case Some((v, rest')) => if WithTag(n, v).Some? then Some((WithTag(n, v).value, rest')) else None
       case None => None)
    case (7, Some(n)) => if h.w.W1? && n < 32 then None else Some((Simple(Size(h.w), n), rest))
    case _ => None
  }

  /** The chunks of an indefinite string, each definite and of the same major type, up to the break. */
  function DecodeChunks(major: nat, b: seq<Byte>, before: seq<Byte>): (r: Option<(seq<Byte>, seq<Byte>)>)
    ensures r.Some? ==> |r.value.1| < |b|
    decreases |b|
  {
    if |b| > 0 && b[0] == BREAK then Some((before, b[1..]))
    else match DecodeHead(b)
      case Some(HeadOf(m, _, Some(n), rest)) =>
        if m == major && n <= |rest| then DecodeChunks(major, rest[n..], before + rest[..n]) else None
      case _ => None
  }

  /** `left` items, or items up to the break. */
  function DecodeItems(left: Option<nat>, b: seq<Byte>, before: seq<Val>): (r: Option<(seq<Val>, seq<Byte>)>)
    ensures r.Some? ==> |r.value.1| <= |b|
    decreases |b|, 1, if left.Some? then left.value else 0
  {
    if left == Some(0) then Some((before, b))
    else if left.None? && |b| > 0 && b[0] == BREAK then Some((before, b[1..]))
    else match Decode(b)
      case None => None
      case Some((v, rest)) => DecodeItems(if left.Some? then Some(left.value - 1) else None, rest, before + [v])
  }

  function DecodePairs(left: Option<nat>, b: seq<Byte>, before: map<Key, Val>): (r: Option<(map<Key, Val>, seq<Byte>)>)
    ensures r.Some? ==> |r.value.1| <= |b|
    decreases |b|, 1, if left.Some? then left.value else 0
  {
    if left == Some(0) then Some((before, b))
    else if left.None? && |b| > 0 && b[0] == BREAK then Some((before, b[1..]))
    else match Decode(b)
      case None => None
      case Some((k, rest)) =>
        match Decode(rest)
        case None => None
        case Some((v, rest')) =>
          if AsKey(k).None? then None
          else DecodePairs(if left.Some? then Some(left.value - 1) else None, rest', before[AsKey(k).value := v])
  }

  // ----- the decoder inverts every well-formed encoding -----

  function Then<T>(o: Option<T>, rest: seq<Byte>): Option<(T, seq<Byte>)> {
    match o
    case Some(v) => Some((v, rest))
    case None => None
  }

  lemma Regroup3(a: seq<Byte>, b: seq<Byte>, c: seq<Byte>)
    ensures a + b + c == a + (b + c)
  {
  }

  lemma Regroup4(a: seq<Byte>, b: seq<Byte>, c: seq<Byte>, d: seq<Byte>)
    ensures a + b + c + d == a + (b + (c + d))
  {
  }

  lemma InitialByte(major: nat, info: nat)
    requires major < 8 && info < 32
    ensures (32 * major + info) / 32 == major && (32 * major + info) % 32 == info
  {
  }

  lemma WidthInverts(w: Width, n: nat)
    requires Fits(w, n)
    ensures WidthOf(Info(w, n)) == Some(w) && (w.W0? ==> Info(w, n) == n)
  {
  }

  /** The first byte, `k` more, and what follows. */
  lemma HeadParts(first: Byte, arg: seq<Byte>, rest: seq<Byte>)
    ensures var b := [first] + arg + rest;
            b[0] == first && |b| >= 1 + |arg| && b[1..1 + |arg|] == arg && b[1 + |arg|..] == rest
  {
  }

  /** The argument is `arg`, however it was made. */
  lemma HeadRead(major: nat, info: nat, w: Width, n: nat, arg: seq<Byte>, rest: seq<Byte>)
    requires major < 8 && info < 31 && WidthOf(info) == Some(w)
    requires |arg| == Size(w) && n == (if w.W0? then info else Value(arg))
    ensures DecodeHead([32 * major + info] + arg + rest) == Some(HeadOf(major, w, Some(n), rest))
  {
    InitialByte(major, info);
    HeadParts(32 * major + info, arg, rest);
  }

  lemma HeadInverts(major: nat, w: Width, n: nat, rest: seq<Byte>)
    requires major < 8 && Fits(w, n)
    ensures DecodeHead(Head(major, w, n) + rest) == Some(HeadOf(major, w, Some(n), rest))
  {
    var arg := ToBytes(n, Size(w));
    WidthInverts(w, n);
    ArgumentValue(w, n);
    HeadRead(major, Info(w, n), w, n, arg, rest);
  }

  lemma ArgumentValue(w: Width, n: nat)
    requires Fits(w, n)
    ensures |ToBytes(n, Size(w))| == Size(w) && (w.W0? || Value(ToBytes(n, Size(w))) == n)
  {
    if !w.W0? { ToBytesValue(n, Size(w)); }
  }

  /** An initial byte with additional information 31. */
  lemma OpenInverts(first: Byte, rest: seq<Byte>)
    requires first % 32 == 31
    ensures DecodeHead([first] + rest) == Some(HeadOf(first / 32, W0, None, rest))
  {
    assert ([first] + rest)[1..] == rest;
  }

  lemma ChunkInverts(major: nat, c: Chunk, before: seq<Byte>, more: seq<Byte>)
    requires (major == 2 || major == 3) && Fits(c.w, |c.data|)
    ensures DecodeChunks(major, Head(major, c.w, |c.data|) + (c.data + more), before)
         == DecodeChunks(major, more, before + c.data)
  {
    HeadInverts(major, c.w, |c.data|, c.data + more);
    assert (c.data + more)[..|c.data|] == c.data && (c.data + more)[|c.data|..] == more;
  }

  lemma {:induction false} ChunksInvert(major: nat, chunks: seq<Chunk>, before: seq<Byte>, rest: seq<Byte>)
    requires (major == 2 || major == 3) && forall c <- chunks :: Fits(c.w, |c.data|)
    ensures DecodeChunks(major, EncodeChunks(major, chunks) + ([BREAK] + rest), before)
         == Some((before + Joined(chunks), rest))
  {
    var tail := [BREAK] + rest;
    if |chunks| == 0 {
      assert EncodeChunks(major, chunks) + tail == tail;
      assert tail[1..] == rest;
      assert before + Joined(chunks) == before;
    } else {
      var c := chunks[0];
      var more := EncodeChunks(major, chunks[1..]) + tail;
      Regroup4(Head(major, c.w, |c.data|), c.data, EncodeChunks(major, chunks[1..]), tail);
      ChunkInverts(major, c, before, more);
      ChunksInvert(major, chunks[1..], before + c.data, rest);
      Regroup3(before, c.data, Joined(chunks[1..]));
    }
  }

  lemma HeadDecodes(major: nat, w: Width, n: nat, rest: seq<Byte>)
    requires major < 8 && Fits(w, n)
    ensures Decode(Head(major, w, n) + rest) == DecodeBody(HeadOf(major, w, Some(n), rest))
  {
    HeadInverts(major, w, n, rest);
  }

  lemma OpenDecodes(first: Byte, rest: seq<Byte>)
    requires first % 32 == 31
    ensures Decode([first] + rest) == DecodeBody(HeadOf(first / 32, W0, None, rest))
  {
    OpenInverts(first, rest);
  }

  lemma EncodeStarts(i: Item)
    requires WellFormed(i)
    ensures |Encode(i)| > 0 && Encode(i)[0] != BREAK
  {
  }

  /** Whatever encoding of a value is chosen, and whatever follows it, the decoder finds the value and what follows. */
  lemma {:induction false} DecodeInverts(i: Item, rest: seq<Byte>)
    requires WellFormed(i)
    ensures Decode(Encode(i) + rest) == Then(Meaning(i), rest)
    decreases i, 3
  {
    match i
    case BytesItem(_, _) => StringInverts(i, rest);
    case TextItem(_, _) => StringInverts(i, rest);
    case BytesChunks(_) => BytesChunksInvert(i, rest);
    case TextChunks(_) => TextChunksInvert(i, rest);
    case ListItem(_, _) => ListInverts(i, rest);
    case ListToBreak(_) => ListToBreakInverts(i, rest);
    case MapItem(_, _) => MapInverts(i, rest);
    case MapToBreak(_) => MapToBreakInverts(i, rest);
    case TagItem(_, _, content) =>
      DecodeInverts(content, rest);
      TagInverts(i, rest);
    case _ => ScalarInverts(i, rest);
  }

  lemma ScalarInverts(i: Item, rest: seq<Byte>)
    requires WellFormed(i) && (i.UintItem? || i.NintItem? || i.SimpleItem?)
    ensures Decode(Encode(i) + rest) == Then(Meaning(i), rest)
  {
    match i
    case UintItem(w, n) => HeadDecodes(0, w, n, rest);
    case NintItem(w, n) => HeadDecodes(1, w, n, rest);
    case SimpleItem(w, n) => HeadDecodes(7, w, n, rest);
  }

  lemma TagDecodes(w: Width, n: nat, content: seq<Byte>, v: Option<Val>, rest: seq<Byte>)
    requires Fits(w, n) && Decode(content) == Then(v, rest)
    ensures Decode(Head(6, w, n) + content) == Then(match v { case Some(x) => WithTag(n, x) case None => None }, rest)
  {
    HeadDecodes(6, w, n, content);
  }

  lemma TagInverts(i: Item, rest: seq<Byte>)
    requires WellFormed(i) && i.TagItem?
    requires Decode(Encode(i.content) + rest) == Then(Meaning(i.content), rest)
    ensures Decode(Encode(i) + rest) == Then(Meaning(i), rest)
  {
    TagDecodes(i.w, i.n, Encode(i.content) + rest, Meaning(i.content), rest);
    Regroup3(Head(6, i.w, i.n), Encode(i.content), rest);
  }

  lemma StringDecodes(major: nat, w: Width, data: seq<Byte>, rest: seq<Byte>)
    requires (major == 2 || major == 3) && Fits(w, |data|)
    ensures Decode(Head(major, w, |data|) + data + rest)
         == Some((if major == 2 then ByteString(data) else Text(data), rest))
  {
    var after := data + rest;
    Regroup3(Head(major, w, |data|), data, rest);
    HeadDecodes(major, w, |data|, after);
    assert after[..|data|] == data && after[|data|..] == rest;
  }

  lemma StringInverts(i: Item, rest: seq<Byte>)
    requires WellFormed(i) && (i.BytesItem? || i.TextItem?)
    ensures Decode(Encode(i) + rest) == Then(Meaning(i), rest)
  {
    StringDecodes(if i.BytesItem? then 2 else 3, i.w, i.data, rest);
  }

  lemma BytesChunksRead(body: seq<Byte>, data: seq<Byte>, rest: seq<Byte>)
    requires DecodeChunks(2, body, []) == Some((data, rest))
    ensures Decode([0x5f] + body) == Some((ByteString(data), rest))
  {
    OpenInverts(0x5f, body);
    assert DecodeBody(HeadOf(2, W0, None, body)) == Some((ByteString(data), rest));
  }

  lemma TextChunksRead(body: seq<Byte>, data: seq<Byte>, rest: seq<Byte>)
    requires DecodeChunks(3, body, []) == Some((data, rest))
    ensures Decode([0x7f] + body) == Some((Text(data), rest))
  {
    OpenInverts(0x7f, body);
    assert DecodeBody(HeadOf(3, W0, None, body)) == Some((Text(data), rest));
  }

  lemma ChunksRead(major: nat, chunks: seq<Chunk>, rest: seq<Byte>)
    requires (major == 2 || major == 3) && forall c <- chunks :: Fits(c.w, |c.data|)
    ensures DecodeChunks(major, EncodeChunks(major, chunks) + ([BREAK] + rest), []) == Some((Joined(chunks), rest))
  {
    ChunksInvert(major, chunks, [], rest);
    assert [] + Joined(chunks) == Joined(chunks);
  }

  lemma BytesChunksInvert(i: Item, rest: seq<Byte>)
    requires WellFormed(i) && i.BytesChunks?
    ensures Decode(Encode(i) + rest) == Then(Meaning(i), rest)
  {
    Regroup4([0x5f], EncodeChunks(2, i.chunks), [BREAK], rest);
    ChunksRead(2, i.chunks, rest);
    BytesChunksRead(EncodeChunks(2, i.chunks) + ([BREAK] + rest), Joined(i.chunks), rest);
  }

  lemma TextChunksInvert(i: Item, rest: seq<Byte>)
    requires WellFormed(i) && i.TextChunks?
    ensures Decode(Encode(i) + rest) == Then(Meaning(i), rest)
  {
    Regroup4([0x7f], EncodeChunks(3, i.chunks), [BREAK], rest);
    ChunksRead(3, i.chunks, rest);
    TextChunksRead(EncodeChunks(3, i.chunks) + ([BREAK] + rest), Joined(i.chunks), rest);
  }

  lemma {:induction false} ListInverts(i: Item, rest: seq<Byte>)
    requires WellFormed(i) && i.ListItem?
    ensures Decode(Encode(i) + rest) == Then(Meaning(i), rest)
    decreases i, 2
  {
    var body := EncodeItems(i.items) + rest;
    Regroup3(Head(4, i.w, |i.items|), EncodeItems(i.items), rest);
    HeadDecodes(4, i.w, |i.items|, body);
    ItemsInvert(Some(|i.items|), i.items, [], rest);
  }

  lemma {:induction false} ListToBreakInverts(i: Item, rest: seq<Byte>)
    requires WellFormed(i) && i.ListToBreak?
    ensures Decode(Encode(i) + rest) == Then(Meaning(i), rest)
    decreases i, 2
  {
    var body := EncodeItems(i.items) + ([BREAK] + rest);
    Regroup4([0x9f], EncodeItems(i.items), [BREAK], rest);
    OpenDecodes(0x9f, body);
    ItemsInvert(None, i.items, [], rest);
  }

  lemma {:induction false} MapInverts(i: Item, rest: seq<Byte>)
    requires WellFormed(i) && i.MapItem?
    ensures Decode(Encode(i) + rest) == Then(Meaning(i), rest)
    decreases i, 2
  {
    var body := EncodePairs(i.pairs) + rest;
    Regroup3(Head(5, i.w, |i.pairs|), EncodePairs(i.pairs), rest);
    HeadDecodes(5, i.w, |i.pairs|, body);
    PairsInvert(Some(|i.pairs|), i.pairs, map[], rest);
  }

  lemma {:induction false} MapToBreakInverts(i: Item, rest: seq<Byte>)
    requires WellFormed(i) && i.MapToBreak?
    ensures Decode(Encode(i) + rest) == Then(Meaning(i), rest)
    decreases i, 2
  {
    var body := EncodePairs(i.pairs) + ([BREAK] + rest);
    Regroup4([0xbf], EncodePairs(i.pairs), [BREAK], rest);
    OpenDecodes(0xbf, body);
    PairsInvert(None, i.pairs, map[], rest);
  }

  /** What ends a sequence of items: nothing if they are counted, a break if not. */
  function Ending(left: Option<nat>, rest: seq<Byte>): seq<Byte> {
    if left.Some? then rest else [BREAK] + rest
  }

  lemma {:induction false} ItemsInvert(left: Option<nat>, items: seq<Item>, before: seq<Val>, rest: seq<Byte>)
    requires forall x <- items :: WellFormed(x)
    requires left == Some(|items|) || left == None
    ensures DecodeItems(left, EncodeItems(items) + Ending(left, rest), before)
         == Then(ItemMeanings(items, before), rest)
    decreases items, 1
  {
    var tail := Ending(left, rest);
    if |items| == 0 {
      assert EncodeItems(items) + tail == tail;
      assert left.None? ==> tail[1..] == rest;
    } else {
      var more := EncodeItems(items[1..]) + tail;
      Regroup3(Encode(items[0]), EncodeItems(items[1..]), tail);
      EncodeStarts(items[0]);
      DecodeInverts(items[0], more);
      if v :| Meaning(items[0]) == Some(v) {
        ItemsInvert(if left.Some? then Some(left.value - 1) else None, items[1..], before + [v], rest);
      }
    }
  }

  lemma {:induction false} PairsInvert(left: Option<nat>, pairs: seq<Pair>, before: map<Key, Val>, rest: seq<Byte>)
    requires forall p <- pairs :: WellFormedPair(p)
    requires left == Some(|pairs|) || left == None
    ensures DecodePairs(left, EncodePairs(pairs) + Ending(left, rest), before)
         == Then(PairMeanings(pairs, before), rest)
    decreases pairs, 2
  {
    var tail := Ending(left, rest);
    if |pairs| == 0 {
      assert EncodePairs(pairs) + tail == tail;
      assert left.None? ==> tail[1..] == rest;
    } else {
      var more := EncodePairs(pairs[1..]) + tail;
      Regroup3(EncodePair(pairs[0]), EncodePairs(pairs[1..]), tail);
      PairInverts(left, pairs[0], before, more);
      if kv :| PairMeaning(pairs[0]) == Some(kv) {
        PairsInvert(if left.Some? then Some(left.value - 1) else None, pairs[1..], before[kv.0 := kv.1], rest);
      }
    }
  }

  lemma {:induction false} PairInverts(left: Option<nat>, p: Pair, before: map<Key, Val>, more: seq<Byte>)
    requires WellFormedPair(p) && left != Some(0)
    ensures DecodePairs(left, EncodePair(p) + more, before) ==
            match PairMeaning(p)
            case Some((k, v)) => DecodePairs(if left.Some? then Some(left.value - 1) else None, more, before[k := v])
            case None => None
    decreases p, 1
  {
    Regroup3(Encode(p.key), Encode(p.value), more);
    EncodeStarts(p.key);
    DecodeInverts(p.key, Encode(p.value) + more);
    DecodeInverts(p.value, more);
  }

  // ----- numbers -----

  /** The integer a value stands for, if it is one. */
  function IntOf(v: Val): Option<int> {
    match v
    case Uint(n) => Some(n)
    case Nint(n) => Some(-1 - n)
    case Big(value) => Some(value)
    case _ => None
  }

  /** Section 2.4.2 of RFC 7049: tag 2 is a positive, tag 3 a negative bignum, in big-endian bytes. */
  function BignumItem(negative: bool, w: Width, u: Width, data: seq<Byte>): Item {
    TagItem(w, if negative then 3 else 2, BytesItem(u, data))
  }

  lemma NegativeIs(n: nat)
    ensures IntOf(Negative(n)) == Some(-1 - n)
    ensures Negative(n).Big? <==> -1 - n < -0x8000_0000_0000_0000
  {
  }

  lemma BignumMeans(negative: bool, w: Width, u: Width, data: seq<Byte>)
    ensures Meaning(BignumItem(negative, w, u, data)) == Some(Big(if negative then -1 - Value(data) else Value(data)))
  {
    assert Meaning(BytesItem(u, data)) == Some(ByteString(data));
  }

  lemma NaturalsDecode(w: Width, n: nat, rest: seq<Byte>)
    requires Fits(w, n)
    ensures Decode(Head(0, w, n) + rest) == Some((Uint(n), rest))
  {
    HeadDecodes(0, w, n, rest);
  }

  /**
   What is decoded for a negative integer is that integer, whatever the width of its head; it is big exactly if it
   does not fit 64 bits with its sign.
   */
  lemma NegativesDecode(w: Width, n: nat, rest: seq<Byte>)
    requires Fits(w, n)
    ensures var r := Decode(Head(1, w, n) + rest);
            && r.Some? && r.value.1 == rest && IntOf(r.value.0) == Some(-1 - n)
            && (r.value.0.Big? <==> -1 - n < -0x8000_0000_0000_0000)
  {
    HeadDecodes(1, w, n, rest);
    NegativeIs(n);
  }

  /** A bignum, whatever its bytes, is the number they write. */
  lemma BignumsDecode(negative: bool, w: Width, u: Width, data: seq<Byte>, rest: seq<Byte>)
    requires WellFormed(BignumItem(negative, w, u, data))
    ensures Decode(Encode(BignumItem(negative, w, u, data)) + rest)
         == Some((Big(if negative then -1 - Value(data) else Value(data)), rest))
  {
    BignumMeans(negative, w, u, data);
    DecodeInverts(BignumItem(negative, w, u, data), rest);
  }

  /** The bignum tags want a byte string; any other tag keeps its content. */
  lemma TagsDecode(w: Width, n: nat, content: Item, rest: seq<Byte>)
    requires Fits(w, n) && WellFormed(content)
    ensures var r := Decode(Encode(TagItem(w, n, content)) + rest);
            && (Meaning(content).None? ==> r == None)
            && (Meaning(content).Some? && n != 2 && n != 3 ==> r == Some((Tagged(n, Meaning(content).value), rest)))
            && (Meaning(content).Some? && (n == 2 || n == 3) ==> (r.Some? <==> Meaning(content).value.ByteString?))
  {
    DecodeInverts(TagItem(w, n, content), rest);
  }
}
