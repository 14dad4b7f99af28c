/** Delimiter insertion and coercion, on top of the decoder of module `CborFormat`. */
module DietCbor {
  import opened Wrappers
  import opened Bytes
  import opened CborFormat

  /** Wraps what does not begin with a map head; a single byte is left alone. */
  function AutoAddMapDelimiters(b: seq<Byte>): seq<Byte> {
    if |b| == 0 || (|b| > 1 && b[0] / 32 != 5) then [0xbf] + b + [0xff] else b
  }

  // ----- coercion -----

  /** `None` if some interface map, outside tags, has a key that is not text. */
  function Coerce(v: Val): Option<Val>
    decreases v, 1
  {
    match v
    case StringMap(fields) =>
      if forall k <- fields :: Coerce(fields[k]).Some? then Some(StringMap(CoerceFields(v))) else None
    case InterfaceMap(entries) =>
      if forall k <- entries :: k.TextKey? && Coerce(entries[k]).Some? then Some(StringMap(CoerceEntries(v))) else None
    case List(items) =>
      if forall i: nat :: i < |items| ==> Coerce(items[i]).Some? then Some(List(CoerceItems(v))) else None
    case Big(value) => Some(BigPointer(value))
    case _ => Some(v)
  }

  function CoerceFields(v: Val): (m: map<seq<Byte>, Val>)
    requires v.StringMap? && forall k <- v.fields :: Coerce(v.fields[k]).Some?
    ensures m.Keys == v.fields.Keys && forall k <- m :: Coerce(v.fields[k]) == Some(m[k])
    decreases v, 0
  {
    map k <- v.fields :: Coerce(v.fields[k]).value
  }

  function CoerceEntries(v: Val): (m: map<seq<Byte>, Val>)
    requires v.InterfaceMap? && forall k <- v.entries :: k.TextKey? && Coerce(v.entries[k]).Some?
    ensures forall k <- v.entries :: k.text in m && Coerce(v.entries[k]) == Some(m[k.text])
    ensures forall t <- m :: TextKey(t) in v.entries
    decreases v, 0
  {
    map k <- v.entries :: k.text := Coerce(v.entries[k]).value
  }

  function CoerceItems(v: Val): (s: seq<Val>)
    requires v.List? && forall i: nat :: i < |v.items| ==> Coerce(v.items[i]).Some?
    ensures |s| == |v.items| && forall i: nat :: i < |s| ==> Coerce(v.items[i]) == Some(s[i])
    decreases v, 0
  {
    seq(|v.items|, (i: nat) requires i < |v.items| && Coerce(v.items[i]).Some? => Coerce(v.items[i]).value)
  }

  /** Every key of every interface map is text. */
  predicate TextKeysOnly(v: Val)
    decreases v
  {
    match v
    case StringMap(fields) => forall k <- fields :: TextKeysOnly(fields[k])
    case InterfaceMap(entries) => forall k <- entries :: k.TextKey? && TextKeysOnly(entries[k])
    case List(items) => forall i: nat :: i < |items| ==> TextKeysOnly(items[i])
    case _ => true
  }

  /** There is no interface map, and no big integer that is not behind a pointer. */
  predicate Coerced(v: Val)
    decreases v
  {
    match v
    case StringMap(fields) => forall k <- fields :: Coerced(fields[k])
    case List(items) => forall i: nat :: i < |items| ==> Coerced(items[i])
    case InterfaceMap(_) => false
    case Big(_) => false
    case _ => true
  }

  lemma {:induction false} CoerceSucceedsIff(v: Val)
    ensures Coerce(v).Some? <==> TextKeysOnly(v)
    decreases v
  {
    match v
    case StringMap(fields) => forall k | k in fields { CoerceSucceedsIff(fields[k]); }
    case InterfaceMap(entries) => forall k | k in entries { CoerceSucceedsIff(entries[k]); }
    case List(items) => forall i: nat | i < |items| { CoerceSucceedsIff(items[i]); }
    case _ =>
  }

  lemma {:induction false} CoerceCoerces(v: Val)
    requires Coerce(v).Some?
    ensures Coerced(Coerce(v).value)
    decreases v
  {
    match v
    case StringMap(fields) =>
      forall k | k in fields { CoerceCoerces(fields[k]); }
    case InterfaceMap(entries) =>
      forall k | k in entries { CoerceCoerces(entries[k]); }
      forall t <- CoerceEntries(v) ensures Coerced(CoerceEntries(v)[t]) { assert TextKey(t) in entries; }
    case List(items) =>
      forall i: nat | i < |items| { CoerceCoerces(items[i]); }
    case _ =>
  }

  lemma {:induction false} CoercedStays(v: Val)
    requires Coerced(v)
    ensures Coerce(v) == Some(v)
    decreases v
  {
    match v
    case StringMap(fields) =>
      forall k | k in fields ensures Coerce(fields[k]) == Some(fields[k]) { CoercedStays(fields[k]); }
      assert CoerceFields(v) == fields;
    case List(items) =>
      forall i: nat | i < |items| ensures Coerce(items[i]) == Some(items[i]) { CoercedStays(items[i]); }
      assert CoerceItems(v) == items;
    case _ =>
  }

  /** Coercion is idempotent: what it returns contains no interface map, and it leaves such values alone. */
  lemma CoerceIdempotent(v: Val)
    requires Coerce(v).Some?
    ensures Coerced(Coerce(v).value)
    ensures Coerce(Coerce(v).value) == Coerce(v)
  {
    CoerceCoerces(v);
    CoercedStays(Coerce(v).value);
  }

  /** A value read plainly: string maps and interface maps are the same, so are big integers and pointers to them. */
  datatype Plain =
    | Number(value: int)
    | Sequence(elements: seq<Plain>)
    | Fields(members: map<Key, Plain>)
    | Other(v: Val)

  function PlainOf(v: Val): Plain
    decreases v, 1
  {
    match v
    case StringMap(fields) => Fields(PlainFields(v))
    case InterfaceMap(entries) => Fields(map k <- entries :: PlainOf(entries[k]))
    case List(items) => Sequence(seq(|items|, (i: nat) requires i < |items| => PlainOf(items[i])))
    case Big(value) => Number(value)
    case BigPointer(value) => Number(value)
    case _ => Other(v)
  }

  function PlainFields(v: Val): (m: map<Key, Plain>)
    requires v.StringMap?
    ensures forall k <- v.fields :: TextKey(k) in m && m[TextKey(k)] == PlainOf(v.fields[k])
    ensures forall k <- m :: k.TextKey? && k.text in v.fields
    decreases v, 0
  {
    map k <- v.fields :: TextKey(k) := PlainOf(v.fields[k])
  }

  /** Coercion keeps the content: read plainly, the result is what was coerced. */
  lemma {:induction false} CoerceKeepsContent(v: Val)
    requires Coerce(v).Some?
    ensures PlainOf(Coerce(v).value) == PlainOf(v)
    decreases v
  {
    match v
    case StringMap(fields) =>
      forall k | k in fields ensures PlainOf(CoerceFields(v)[k]) == PlainOf(fields[k]) {
        CoerceKeepsContent(fields[k]);
      }
      SameFields(fields, CoerceFields(v));
    case InterfaceMap(entries) =>
      forall k | k in entries ensures PlainOf(CoerceEntries(v)[k.text]) == PlainOf(entries[k]) {
        CoerceKeepsContent(entries[k]);
      }
      SameEntries(entries, CoerceEntries(v));
    case List(items) =>
      forall i: nat | i < |items| { CoerceKeepsContent(items[i]); }
      SameItems(items, CoerceItems(v));
    case _ =>
  }

  lemma SameFields(a: map<seq<Byte>, Val>, b: map<seq<Byte>, Val>)
    requires a.Keys == b.Keys && forall k <- a :: PlainOf(b[k]) == PlainOf(a[k])
    ensures PlainOf(StringMap(b)) == PlainOf(StringMap(a))
  {
    var x, y := PlainFields(StringMap(a)), PlainFields(StringMap(b));
    forall k | k in x ensures k in y && y[k] == x[k] { assert k == TextKey(k.text) && k.text in a; }
    forall k | k in y ensures k in x { assert k == TextKey(k.text) && k.text in b; }
  }

  lemma SameEntries(a: map<Key, Val>, b: map<seq<Byte>, Val>)
    requires forall k <- a :: k.TextKey? && k.text in b && PlainOf(b[k.text]) == PlainOf(a[k])
    requires forall t <- b :: TextKey(t) in a
    ensures PlainOf(StringMap(b)) == PlainOf(InterfaceMap(a))
  {
    var x: map<Key, Plain>, y := map k <- a :: PlainOf(a[k]), PlainFields(StringMap(b));
    forall k | k in x ensures k in y && y[k] == x[k] { assert k == TextKey(k.text); }
    forall k | k in y ensures k in x { assert k == TextKey(k.text) && k.text in b; }
    assert x == y;
  }

  lemma SameItems(a: seq<Val>, b: seq<Val>)
    requires |a| == |b| && forall i: nat :: i < |a| ==> PlainOf(b[i]) == PlainOf(a[i])
    ensures PlainOf(List(b)) == PlainOf(List(a))
  {
  }

  /** The recursion as it is written, with a method for each kind of value that it visits in a loop. */
  method CoerceInterfaceMapToStringMap(v: Val) returns (r: Option<Val>)
    ensures r == Coerce(v)
    decreases v, 1
  {
    match v
    case StringMap(fields) => r := CoerceStringMap(v, fields);
    case InterfaceMap(entries) => r := CoerceInterfaceMap(v, entries);
    case List(items) => r := CoerceList(v, items);
    case Big(value) => r := Some(BigPointer(value));
    case _ => r := Some(v);
  }

  /** Overwrites the values of the map, which is ranged over in any order. */
  method CoerceStringMap(v: Val, fields: map<seq<Byte>, Val>) returns (r: Option<Val>)
    requires v == StringMap(fields)
    ensures r == Coerce(v)
    decreases v, 0
  {
    var typed := fields;
    var todo := fields.Keys;
    while todo != {}
      invariant todo <= fields.Keys && typed.Keys == fields.Keys
      invariant forall k <- todo :: typed[k] == fields[k]
      invariant forall k <- fields :: k !in todo ==> Coerce(fields[k]) == Some(typed[k])
    {
      var k :| k in todo;
      var coerced := CoerceInterfaceMapToStringMap(fields[k]);
      if coerced.None? {
        return None;
      }
      typed := typed[k := coerced.value];
      todo := todo - {k};
    }
    assert forall k <- fields :: Coerce(fields[k]).Some?;
    assert typed == CoerceFields(v);
    r := Some(StringMap(typed));
  }

  /** Fills a new map, ranging over the old one in any order. */
  method CoerceInterfaceMap(v: Val, entries: map<Key, Val>) returns (r: Option<Val>)
    requires v == InterfaceMap(entries)
    ensures r == Coerce(v)
    decreases v, 0
  {
    var m: map<seq<Byte>, Val> := map[];
    var todo := entries.Keys;
    while todo != {}
      invariant todo <= entries.Keys
      invariant forall k <- entries :: k !in todo ==> k.TextKey? && k.text in m && Coerce(entries[k]) == Some(m[k.text])
      invariant forall t <- m :: TextKey(t) in entries && TextKey(t) !in todo
    {
      var k :| k in todo;
      if !k.TextKey? {
        return None;
      }
      var coerced := CoerceInterfaceMapToStringMap(entries[k]);
      if coerced.None? {
        return None;
      }
      m := m[k.text := coerced.value];
      todo := todo - {k};
    }
    CoercedEntries(entries, m);
    r := Some(StringMap(m));
  }

  method CoerceList(v: Val, items: seq<Val>) returns (r: Option<Val>)
    requires v == List(items)
    ensures r == Coerce(v)
    decreases v, 0
  {
    var out: seq<Val> := [];
    for i := 0 to |items|
      invariant |out| == i
      invariant forall j: nat :: j < i ==> Coerce(items[j]) == Some(out[j])
    {
      var coerced := CoerceInterfaceMapToStringMap(items[i]);
      if coerced.None? {
        return None;
      }
      out := out + [coerced.value];
    }
    assert forall j: nat :: j < |items| ==> Coerce(items[j]).Some?;
    assert out == CoerceItems(v);
    r := Some(List(out));
  }

  lemma CoercedEntries(entries: map<Key, Val>, m: map<seq<Byte>, Val>)
    requires forall k <- entries :: k.TextKey? && k.text in m && Coerce(entries[k]) == Some(m[k.text])
    requires forall t <- m :: TextKey(t) in entries
    ensures Coerce(InterfaceMap(entries)) == Some(StringMap(m))
  {
    assert forall k <- entries :: k.TextKey? && Coerce(entries[k]).Some?;
    var c := CoerceEntries(InterfaceMap(entries));
    forall t <- m ensures t in c && c[t] == m[t] { assert TextKey(t) in entries; }
    forall t <- c ensures t in m { assert TextKey(t) in entries; }
    assert c == m;
  }

  // ----- parsing -----

  /** Null and undefined decode to an empty Go map; bytes behind the first item are ignored. */
  function Unmarshal(b: seq<Byte>): Option<map<Key, Val>> {
    match Decode(b)
    case Some((InterfaceMap(m), _)) => Some(m)
    case Some((Simple(0, n), _)) => if n == 22 || n == 23 then Some(map[]) else None
    case _ => None
  }

  function ParseDiet(b: seq<Byte>): Option<map<seq<Byte>, Val>> {
    match Unmarshal(AutoAddMapDelimiters(b))
    case None => None
    case Some(m) =>
      match Coerce(InterfaceMap(m))
      case Some(StringMap(fields)) => Some(fields)
      case _ => None
  }

  lemma NothingDecodes()
    ensures Decode([]) == None
    ensures forall major: nat :: DecodeChunks(major, [], []) == None
    ensures forall left: Option<nat> :: left != Some(0) ==> DecodeItems(left, [], []) == None
    ensures forall left: Option<nat> :: left != Some(0) ==> DecodePairs(left, [], map[]) == None
  {
  }

  lemma SingleHead(b: Byte)
    ensures b % 32 < 24 ==> DecodeHead([b]) == Some(HeadOf(b / 32, W0, Some(b % 32), []))
    ensures b % 32 == 31 ==> DecodeHead([b]) == Some(HeadOf(b / 32, W0, None, []))
    ensures 24 <= b % 32 < 31 ==> DecodeHead([b]) == None
  {
    assert [b][1..] == [];
  }

  lemma SingleBody(major: nat, arg: Option<nat>)
    requires major < 8 && (arg.Some? ==> arg.value < 24)
    ensures var r := DecodeBody(HeadOf(major, W0, arg, []));
            && (major == 5 && arg == Some(0) ==> r == Some((InterfaceMap(map[]), [])))
            && (major == 7 && arg.Some? ==> r == Some((Simple(0, arg.value), [])))
            && (r.Some? && r.value.0.InterfaceMap? ==> major == 5 && arg == Some(0))
            && (r.Some? && r.value.0.Simple? ==> major == 7 && arg.Some?)
  {
    NothingDecodes();
  }

  /** Of all single bytes three are understood: the empty map, null and undefined, all as the empty map. */
  lemma SingleByte(b: Byte)
    ensures ParseDiet([b]).Some? <==> b == 0xa0 || b == 0xf6 || b == 0xf7
    ensures ParseDiet([b]).Some? ==> ParseDiet([b]) == Some(map[])
  {
    SingleHead(b);
    SingleBody(b / 32, if b % 32 < 24 then Some(b % 32) else None);
    EmptyCoerces();
    assert Decode([b]) == if 24 <= b % 32 < 31 then None
                          else DecodeBody(HeadOf(b / 32, W0, if b % 32 < 24 then Some(b % 32) else None, []));
    assert AutoAddMapDelimiters([b]) == [b];
  }

  lemma EmptyCoerces()
    ensures Coerce(InterfaceMap(map[])) == Some(StringMap(map[]))
  {
    assert CoerceEntries(InterfaceMap(map[])) == map[];
  }

  /** Pairs whose keys are text; the values are arbitrary. */
  predicate DietPairs(pairs: seq<Pair>) {
    forall p <- pairs :: WellFormedPair(p) && (p.key.TextItem? || p.key.TextChunks?)
  }

  /** What the pairs stand for, if their values can be decoded and coerced. */
  function DietMeaning(pairs: seq<Pair>): Option<map<seq<Byte>, Val>> {
    match PairMeanings(pairs, map[])
    case None => None
    case Some(m) =>
      match Coerce(InterfaceMap(m))
      case Some(StringMap(fields)) => Some(fields)
      case _ => None
  }

  lemma BodyIsBare(pairs: seq<Pair>)
    requires DietPairs(pairs)
    ensures |pairs| == 0 ==> EncodePairs(pairs) == []
    ensures |pairs| > 0 ==> |EncodePairs(pairs)| > 1 && EncodePairs(pairs)[0] / 32 == 3
  {
    if |pairs| > 0 {
      EncodeStarts(pairs[0].key);
      EncodeStarts(pairs[0].value);
      TextStarts(pairs[0].key);
    }
  }

  lemma TextStarts(i: Item)
    requires WellFormed(i) && (i.TextItem? || i.TextChunks?)
    ensures |Encode(i)| > 0 && Encode(i)[0] / 32 == 3
  {
  }

  /** An input that becomes an encoded map, with anything behind it, parses to what the map stands for. */
  lemma MapParses(b: seq<Byte>, i: Item, trailing: seq<Byte>)
    requires WellFormed(i) && (i.MapItem? || i.MapToBreak?)
    requires AutoAddMapDelimiters(b) == Encode(i) + trailing
    ensures ParseDiet(b) == DietMeaning(i.pairs)
  {
    DecodeInverts(i, trailing);
  }

  /**
   The pairs alone, the pairs between 0xbf and 0xff, and the pairs behind a head that counts them all parse
   to the same map, whatever the values are: the map they stand for, or the same failure. So do the pairs
   with only the closing mark, and bytes behind a complete map are ignored.
   */
  lemma DietForms(pairs: seq<Pair>, w: Width, trailing: seq<Byte>)
    requires DietPairs(pairs)
    ensures ParseDiet(EncodePairs(pairs)) == DietMeaning(pairs)
    ensures ParseDiet([0xbf] + EncodePairs(pairs) + [0xff] + trailing) == DietMeaning(pairs)
    ensures Fits(w, |pairs|) ==> ParseDiet(Head(5, w, |pairs|) + EncodePairs(pairs) + trailing) == DietMeaning(pairs)
    ensures |pairs| > 0 ==> ParseDiet(EncodePairs(pairs) + [0xff]) == DietMeaning(pairs)
  {
    var body := EncodePairs(pairs);
    BodyIsBare(pairs);
    WrappedStays(body, trailing);
    MapParses([0xbf] + body + [0xff] + trailing, MapToBreak(pairs), trailing);
    BareGetsMarks(body);
    MapParses(body, MapToBreak(pairs), []);
    if |pairs| > 0 {
      ClosedGetsMarks(body);
      MapParses(body + [0xff], MapToBreak(pairs), [0xff]);
    }
    if Fits(w, |pairs|) {
      Regroup3(Head(5, w, |pairs|), body, trailing);
      MapHeadStays(w, |pairs|, body + trailing);
      MapParses(Head(5, w, |pairs|) + body + trailing, MapItem(w, pairs), trailing);
    }
  }

  lemma BareGetsMarks(body: seq<Byte>)
    requires |body| == 0 || (|body| > 1 && body[0] / 32 != 5)
    ensures AutoAddMapDelimiters(body) == [0xbf] + body + [0xff] + []
  {
  }

  lemma ClosedGetsMarks(body: seq<Byte>)
    requires |body| > 1 && body[0] / 32 != 5
    ensures AutoAddMapDelimiters(body + [0xff]) == [0xbf] + body + [0xff] + [0xff]
  {
    Regroup3([0xbf], body, [0xff]);
  }

  lemma WrappedStays(body: seq<Byte>, trailing: seq<Byte>)
    ensures AutoAddMapDelimiters([0xbf] + body + [0xff] + trailing) == [0xbf] + body + [0xff] + trailing
  {
  }

  lemma MapHeadStays(w: Width, n: nat, body: seq<Byte>)
    requires Fits(w, n)
    ensures AutoAddMapDelimiters(Head(5, w, n) + body) == Head(5, w, n) + body
  {
    assert (Head(5, w, n) + body)[0] == 32 * 5 + Info(w, n);
  }

  /**
   The comment on `ParseDietCBOR` lets the markers be there or not. With the opening one alone the input
   is left as it is, and does not parse.
   */
  lemma OpeningMarkAloneFails(pairs: seq<Pair>)
    requires DietPairs(pairs)
    ensures ParseDiet([0xbf] + EncodePairs(pairs)) == None
  {
    var b := [0xbf] + EncodePairs(pairs);
    assert AutoAddMapDelimiters(b) == b;
    OpenDecodes(0xbf, EncodePairs(pairs));
    UnclosedFails(pairs, map[]);
  }

  /** A single byte is left as it is, so the closing mark of an empty map does not parse. */
  lemma ClosingMarkAloneFails()
    ensures ParseDiet([0xff]) == None
  {
    OpenDecodes(0xff, []);
    assert [0xff] + [] == [0xff];
  }

  /** The pairs with each of the two marks, or without. */
  function Marked(pairs: seq<Pair>, opening: bool, closing: bool): seq<Byte>
    requires DietPairs(pairs)
  {
    (if opening then [0xbf] else []) + EncodePairs(pairs) + if closing then [0xff] else []
  }

  /** Not the opening mark without the closing one, and for an empty map neither without the other. */
  predicate MarksAgree(pairs: seq<Pair>, opening: bool, closing: bool) {
    if |pairs| == 0 then opening == closing else opening ==> closing
  }

  /**
   Which of the four ways to set the markers are understood, for any pairs whose values can be decoded: exactly
   those where the marks agree give the map the pairs stand for. The others give an error, whatever the values.
   */
  lemma MarkedForms(pairs: seq<Pair>, opening: bool, closing: bool)
    requires DietPairs(pairs)
    ensures MarksAgree(pairs, opening, closing) ==> ParseDiet(Marked(pairs, opening, closing)) == DietMeaning(pairs)
    ensures !MarksAgree(pairs, opening, closing) ==> ParseDiet(Marked(pairs, opening, closing)) == None
    ensures DietMeaning(pairs).Some? ==>
              (MarksAgree(pairs, opening, closing) <==>
               ParseDiet(Marked(pairs, opening, closing)) == DietMeaning(pairs))
  {
    var body := EncodePairs(pairs);
    if opening && closing {
      DietForms(pairs, W0, []);
      assert [0xbf] + body + [0xff] + [] == Marked(pairs, true, true);
    } else if opening {
      OpeningMarkAloneFails(pairs);
      assert [0xbf] + body + [] == [0xbf] + body;
    } else if closing && |pairs| == 0 {
      ClosingMarkAloneFails();
      assert Marked(pairs, false, true) == [0xff];
    } else if closing {
      DietForms(pairs, W0, []);
      assert [] + body + [0xff] == body + [0xff];
    } else {
      DietForms(pairs, W0, []);
      assert [] + body + [] == body;
    }
  }

  lemma {:induction false} UnclosedFails(pairs: seq<Pair>, before: map<Key, Val>)
    requires forall p <- pairs :: WellFormedPair(p)
    ensures DecodePairs(None, EncodePairs(pairs), before) == None
  {
    if |pairs| == 0 {
    } else {
      PairInverts(None, pairs[0], before, EncodePairs(pairs[1..]));
      if kv :| PairMeaning(pairs[0]) == Some(kv) { UnclosedFails(pairs[1..], before[kv.0 := kv.1]); }
    }
  }

  /** Adding delimiters twice is adding them once. */
  lemma DelimitersIdempotent(b: seq<Byte>)
    ensures AutoAddMapDelimiters(AutoAddMapDelimiters(b)) == AutoAddMapDelimiters(b)
    ensures AutoAddMapDelimiters(b) == b <==> |b| == 1 || (|b| > 0 && b[0] / 32 == 5)
  {
    if AutoAddMapDelimiters(b) != b { assert AutoAddMapDelimiters(b)[0] == 0xbf; }
  }
}
