/**
 JSON as trees, values and token streams: the printer, and a parser for the grammar of sections 4 and 5 of RFC 8259
 that inverts it. Module `JsonText` turns the tokens into characters, and `JsonNormal` puts those into Unicode
 normalization form C.
 */
module Json {
  import opened Wrappers
  import opened StringOrder

  predicate IsNumberChar(c: char) {
    IsDigit(c) || c == '-' || c == '+' || c == '.' || c == 'e' || c == 'E'
  }

  predicate IsDigit(c: char) {
    '0' <= c <= '9'
  }

  /** The text behind the digits it begins with. */
  function DropDigits(s: string): string {
    if |s| > 0 && IsDigit(s[0]) then DropDigits(s[1..]) else s
  }

  predicate IsExponent(s: string) {
    |s| == 0 || (
      && (s[0] == 'e' || s[0] == 'E')
      && var digits := if |s| > 1 && (s[1] == '+' || s[1] == '-') then s[2..] else s[1..];
         |digits| > 0 && DropDigits(digits) == "")
  }

  predicate IsFraction(s: string) {
    if |s| > 0 && s[0] == '.' then |s| > 1 && IsDigit(s[1]) && IsExponent(DropDigits(s[1..])) else IsExponent(s)
  }

  /** The grammar of numbers: no leading zeros, digits behind a point, digits in an exponent. */
  predicate IsNumberText(s: string) {
    && |s| > 0 && (forall c <- s :: IsNumberChar(c))
    && var t := if s[0] == '-' then s[1..] else s;
       && |t| > 0 && IsDigit(t[0])
       && (t[0] == '0' && |t| > 1 ==> !IsDigit(t[1]))
       && IsFraction(DropDigits(t))
  }

  type NumberText = s: string | IsNumberText(s) witness "0"

  datatype Scalar = Str(text: string) | Num(number: NumberText) | Bool(b: bool) | Null

  datatype Token = LBrace | RBrace | LBracket | RBracket | Colon | Comma | Atom(scalar: Scalar)

  // ----- JSON texts as trees -----

  /** The members of an object are in the order of the text, with repeated names if there are any. */
  datatype Tree = Obj(members: seq<Member>) | Arr(items: seq<Tree>) | Leaf(scalar: Scalar)

  datatype Member = Member(name: string, value: Tree)

  function Print(t: Tree): seq<Token>
    decreases t, 0
  {
    match t
    case Obj(members) => [LBrace] + PrintMembers(members) + [RBrace]
    case Arr(items) => [LBracket] + PrintItems(items) + [RBracket]
    case Leaf(s) => [Atom(s)]
  }

  /** One member, with the comma if more follow. */
  function PrintMember(m: Member, last: bool): seq<Token>
    decreases m
  {
    [Atom(Str(m.name)), Colon] + Print(m.value) + if last then [] else [Comma]
  }

  function PrintMembers(ms: seq<Member>): seq<Token>
    decreases ms
  {
    if |ms| == 0 then [] else PrintMember(ms[0], |ms| == 1) + PrintMembers(ms[1..])
  }

  /** One item, with the comma if more follow. */
  function PrintItem(t: Tree, last: bool): seq<Token>
    decreases t, 1
  {
    Print(t) + if last then [] else [Comma]
  }

  function PrintItems(ts: seq<Tree>): seq<Token>
    decreases ts
  {
    if |ts| == 0 then [] else PrintItem(ts[0], |ts| == 1) + PrintItems(ts[1..])
  }

  // ----- a parser for the grammar -----

  /** A tree, and the tokens after it. */
  function Parse(ts: seq<Token>): (r: Option<(Tree, seq<Token>)>)
    ensures r.Some? ==> |r.value.1| < |ts|
    decreases |ts|, 0
  {
    if |ts| == 0 then None
    else match ts[0]
      case LBrace =>
        if |ts| > 1 && ts[1] == RBrace then Some((Obj([]), ts[2..])) else ParseMembers(ts[1..], [])
      case LBracket =>
        if |ts| > 1 && ts[1] == RBracket then Some((Arr([]), ts[2..])) else ParseItems(ts[1..], [])
      case Atom(s) => Some((Leaf(s), ts[1..]))
      case _ => None
  }

  /** One or more members, behind those in `before`. */
  function ParseMembers(ts: seq<Token>, before: seq<Member>): (r: Option<(Tree, seq<Token>)>)
    ensures r.Some? ==> |r.value.1| < |ts|
    decreases |ts|, 1
  {
    if |ts| < 2 || !ts[0].Atom? || !ts[0].scalar.Str? || ts[1] != Colon then None
    else match Parse(ts[2..])
      case None => None
      case Some((t, rest)) =>
        var ms := before + [Member(ts[0].scalar.text, t)];
        if |rest| > 0 && rest[0] == Comma then ParseMembers(rest[1..], ms)
        else if |rest| > 0 && rest[0] == RBrace then Some((Obj(ms), rest[1..]))
        else None
  }

  function ParseItems(ts: seq<Token>, before: seq<Tree>): (r: Option<(Tree, seq<Token>)>)
    ensures r.Some? ==> |r.value.1| < |ts|
    decreases |ts|, 1
  {
    match Parse(ts)
    case None => None
    case Some((t, rest)) =>
      if |rest| > 0 && rest[0] == Comma then ParseItems(rest[1..], before + [t])
      else if |rest| > 0 && rest[0] == RBracket then Some((Arr(before + [t]), rest[1..]))
      else None
  }

  /** A whole JSON text is one value. */
  function ParseText(ts: seq<Token>): Option<Tree> {
    match Parse(ts)
    case Some((t, rest)) => if |rest| == 0 then Some(t) else None
    case None => None
  }

  // ----- the parser inverts the printer -----

  lemma {:induction false} ParseInverts(t: Tree, rest: seq<Token>)
    ensures Parse(Print(t) + rest) == Some((t, rest))
    decreases t, 1
  {
    match t
    case Leaf(s) => assert ([Atom(s)] + rest)[1..] == rest;
    case Obj(ms) =>
      var body := PrintMembers(ms) + ([RBrace] + rest);
      Regroup([LBrace], PrintMembers(ms), [RBrace], rest);
      OpenStep(body);
      if |ms| == 0 {
        assert body == [RBrace] + rest && body[1..] == rest;
      } else {
        ParseMembersInverts(ms, [], rest);
        assert [] + ms == ms;
      }
    case Arr(items) =>
      var body := PrintItems(items) + ([RBracket] + rest);
      Regroup([LBracket], PrintItems(items), [RBracket], rest);
      OpenStep(body);
      if |items| == 0 {
        assert body == [RBracket] + rest && body[1..] == rest;
      } else {
        NeverCloses(items[0]);
        ParseItemsInverts(items, [], rest);
        assert [] + items == items;
      }
  }

  lemma Regroup(a: seq<Token>, b: seq<Token>, c: seq<Token>, d: seq<Token>)
    ensures a + b + c + d == a + (b + (c + d))
  {
  }

  /** An opening bracket with something behind it. */
  lemma OpenStep(body: seq<Token>)
    requires |body| > 0
    ensures body[0] != RBrace ==> Parse([LBrace] + body) == ParseMembers(body, [])
    ensures body[0] != RBracket ==> Parse([LBracket] + body) == ParseItems(body, [])
    ensures body[0] == RBrace ==> Parse([LBrace] + body) == Some((Obj([]), body[1..]))
    ensures body[0] == RBracket ==> Parse([LBracket] + body) == Some((Arr([]), body[1..]))
  {
    assert ([LBrace] + body)[1..] == body;
    assert ([LBracket] + body)[1..] == body;
    assert ([LBrace] + body)[2..] == body[1..];
    assert ([LBracket] + body)[2..] == body[1..];
  }

  /** Nothing printed begins with a closing bracket. */
  lemma NeverCloses(t: Tree)
    ensures |Print(t)| > 0 && Print(t)[0] != RBracket
  {
  }

  /** One member, given that its value parses. */
  lemma MemberStep(m: Member, after: seq<Token>, before: seq<Member>)
    requires Parse(Print(m.value) + after) == Some((m.value, after))
    ensures ParseMembers([Atom(Str(m.name)), Colon] + (Print(m.value) + after), before) ==
            if |after| > 0 && after[0] == Comma then ParseMembers(after[1..], before + [m])
            else if |after| > 0 && after[0] == RBrace then Some((Obj(before + [m]), after[1..]))
            else None
  {
    assert ([Atom(Str(m.name)), Colon] + (Print(m.value) + after))[2..] == Print(m.value) + after;
    assert Member(m.name, m.value) == m;
  }

  lemma {:induction false} ParseMembersInverts(ms: seq<Member>, before: seq<Member>, rest: seq<Token>)
    requires |ms| > 0
    ensures ParseMembers(PrintMembers(ms) + ([RBrace] + rest), before) == Some((Obj(before + ms), rest))
    decreases ms, 0
  {
    var m, close := ms[0], [RBrace] + rest;
    var tail := PrintMembers(ms[1..]) + close;
    var after := (if |ms| == 1 then [] else [Comma]) + tail;
    assert PrintMembers(ms) + close == [Atom(Str(m.name)), Colon] + (Print(m.value) + after);
    ParseInverts(m.value, after);
    MemberStep(m, after, before);
    if |ms| == 1 {
      assert after == close && after[1..] == rest && ms == [m];
    } else {
      assert after[1..] == tail;
      ParseMembersInverts(ms[1..], before + [m], rest);
      assert before + [m] + ms[1..] == before + ms;
    }
  }

  /** One item, given that it parses. */
  lemma ItemStep(t: Tree, after: seq<Token>, before: seq<Tree>)
    requires Parse(Print(t) + after) == Some((t, after))
    ensures ParseItems(Print(t) + after, before) ==
            if |after| > 0 && after[0] == Comma then ParseItems(after[1..], before + [t])
            else if |after| > 0 && after[0] == RBracket then Some((Arr(before + [t]), after[1..]))
            else None
  {
  }

  lemma {:induction false} ParseItemsInverts(ts: seq<Tree>, before: seq<Tree>, rest: seq<Token>)
    requires |ts| > 0
    ensures ParseItems(PrintItems(ts) + ([RBracket] + rest), before) == Some((Arr(before + ts), rest))
    decreases ts, 0
  {
    var t, close := ts[0], [RBracket] + rest;
    var tail := PrintItems(ts[1..]) + close;
    var after := (if |ts| == 1 then [] else [Comma]) + tail;
    assert PrintItems(ts) + close == Print(t) + after;
    ParseInverts(t, after);
    ItemStep(t, after, before);
    if |ts| == 1 {
      assert after == close && after[1..] == rest && ts == [t];
    } else {
      assert after[1..] == tail;
      ParseItemsInverts(ts[1..], before + [t], rest);
      assert before + [t] + ts[1..] == before + ts;
    }
  }

  /** The tokens determine the tree: the parser gets it back, so no two trees share them. */
  lemma PrintUnambiguous(t: Tree, u: Tree)
    ensures ParseText(Print(t)) == Some(t)
    ensures Print(t) == Print(u) <==> t == u
  {
    ParseInverts(t, []);
    ParseInverts(u, []);
    assert Print(t) + [] == Print(t) && Print(u) + [] == Print(u);
  }

  // ----- values -----

  /** A float64 by its bits. */
  type Float = nat

  /** How the text of a number is read, and how `%e` writes one. */
  datatype Floats = Floats(parse: NumberText -> Float, fmt: Float -> NumberText)

  /** `%e` loses digits, but what it writes is read back as a number that it writes the same way. */
  ghost predicate Lawful(fl: Floats) {
    forall x: Float :: fl.fmt(fl.parse(fl.fmt(x))) == fl.fmt(x)
  }

  /** What decoding into an empty interface gives. */
  datatype Value =
    | Object(fields: map<string, Value>)
    | Array(items: seq<Value>)
    | Text(text: string)
    | Number(x: Float)
    | Boolean(b: bool)
    | Nil

  function ScalarValue(fl: Floats, s: Scalar): Value {
    match s
    case Str(text) => Text(text)
    case Num(number) => Number(fl.parse(number))
    case Bool(b) => Boolean(b)
    case Null => Nil
  }

  function ValueOf(fl: Floats, t: Tree): Value
    decreases t
  {
    match t
    case Obj(members) => Object(FieldsOf(fl, members))
    case Arr(items) => Array(seq(|items|, (i: nat) requires i < |items| => ValueOf(fl, items[i])))
    case Leaf(s) => ScalarValue(fl, s)
  }

  /** A repeated name overwrites. */
  function FieldsOf(fl: Floats, ms: seq<Member>): map<string, Value>
    decreases ms
  {
    if |ms| == 0 then map[]
    else
      var m := ms[|ms| - 1];
      FieldsOf(fl, ms[..|ms| - 1])[m.name := ValueOf(fl, m.value)]
  }

  /** What `marshal` writes for a value: the members of an object in the order of their sorted keys. */
  ghost function TreeOf(fl: Floats, v: Value): Tree
    decreases v, 1
  {
    match v
    case Object(fields) => Obj(MembersOf(fl, v, SortedKeys(fields.Keys)))
    case Array(items) => Arr(ItemsOf(fl, v))
    case Text(text) => Leaf(Str(text))
    case Number(x) => Leaf(Num(fl.fmt(x)))
    case Boolean(b) => Leaf(Bool(b))
    case Nil => Leaf(Null)
  }

  ghost function MembersOf(fl: Floats, v: Value, keys: seq<string>): (ms: seq<Member>)
    requires v.Object? && forall k <- keys :: k in v.fields
    ensures |ms| == |keys|
    ensures forall i: nat :: i < |ms| ==> ms[i] == Member(keys[i], TreeOf(fl, v.fields[keys[i]]))
    decreases v, 0
  {
    seq(|keys|, (i: nat) requires i < |keys| && keys[i] in v.fields => Member(keys[i], TreeOf(fl, v.fields[keys[i]])))
  }

  ghost function ItemsOf(fl: Floats, v: Value): (ts: seq<Tree>)
    requires v.Array?
    ensures |ts| == |v.items| && forall i: nat :: i < |ts| ==> ts[i] == TreeOf(fl, v.items[i])
    decreases v, 0
  {
    seq(|v.items|, (i: nat) requires i < |v.items| => TreeOf(fl, v.items[i]))
  }

  /** The value with every number replaced by what its text is read back as. */
  function Rounded(fl: Floats, v: Value): Value {
    match v
    case Object(fields) => Object(map k <- fields :: Rounded(fl, fields[k]))
    case Array(items) => Array(seq(|items|, (i: nat) requires i < |items| => Rounded(fl, items[i])))
    case Number(x) => Number(fl.parse(fl.fmt(x)))
    case _ => v
  }

  function Names(ms: seq<Member>): (names: seq<string>)
    ensures |names| == |ms| && forall i: nat :: i < |ms| ==> names[i] == ms[i].name
  {
    seq(|ms|, (i: nat) requires i < |ms| => ms[i].name)
  }

  /** In every object the names are strictly ascending. */
  ghost predicate Ordered(t: Tree)
    decreases t
  {
    match t
    case Obj(members) => Ascending(Names(members)) && forall i: nat :: i < |members| ==> Ordered(members[i].value)
    case Arr(items) => forall i: nat :: i < |items| ==> Ordered(items[i])
    case Leaf(_) => true
  }

  /** Every number is as `%e` writes it. */
  predicate Printed(fl: Floats, t: Tree)
    decreases t
  {
    match t
    case Obj(members) => forall i: nat :: i < |members| ==> Printed(fl, members[i].value)
    case Arr(items) => forall i: nat :: i < |items| ==> Printed(fl, items[i])
    case Leaf(s) => s.Num? ==> fl.fmt(fl.parse(s.number)) == s.number
  }

  lemma {:induction false} TreesArePrinted(fl: Floats, v: Value)
    requires Lawful(fl)
    ensures Printed(fl, TreeOf(fl, v))
    decreases v
  {
    match v
    case Object(fields) => forall k | k in fields { TreesArePrinted(fl, fields[k]); }
    case Array(items) => forall i: nat | i < |items| { TreesArePrinted(fl, items[i]); }
    case _ =>
  }

  lemma {:induction false} TreesAreOrdered(fl: Floats, v: Value)
    ensures Ordered(TreeOf(fl, v))
    decreases v
  {
    match v
    case Object(fields) =>
      forall k | k in fields { TreesAreOrdered(fl, fields[k]); }
      SortedKeysAscend(fields.Keys);
      var keys := SortedKeys(fields.Keys);
      assert Names(MembersOf(fl, v, keys)) == keys;
    case Array(items) => forall i: nat | i < |items| { TreesAreOrdered(fl, items[i]); }
    case _ =>
  }

  /** Each field comes from a member, and each name has a field. */
  lemma {:induction false} FieldsFrom(fl: Floats, ms: seq<Member>)
    ensures forall k <- FieldsOf(fl, ms) :: exists i: nat ::
              i < |ms| && ms[i].name == k && FieldsOf(fl, ms)[k] == ValueOf(fl, ms[i].value)
    ensures forall i: nat :: i < |ms| ==> ms[i].name in FieldsOf(fl, ms)
  {
    if |ms| == 0 {
    } else {
      FieldsFrom(fl, ms[..|ms| - 1]);
    }
  }

  /** With distinct names each member has its field. */
  lemma {:induction false} FieldsAt(fl: Floats, ms: seq<Member>, i: nat)
    requires i < |ms| && forall a: nat, b: nat :: a < b < |ms| ==> ms[a].name != ms[b].name
    ensures ms[i].name in FieldsOf(fl, ms) && FieldsOf(fl, ms)[ms[i].name] == ValueOf(fl, ms[i].value)
  {
    if i == |ms| - 1 {
    } else {
      FieldsAt(fl, ms[..|ms| - 1], i);
    }
  }

  lemma AscendingIsDistinct(keys: seq<string>)
    requires Ascending(keys)
    ensures forall a: nat, b: nat :: a < b < |keys| ==> keys[a] != keys[b]
  {
    forall a: nat, b: nat | a < b < |keys| ensures keys[a] != keys[b] { Irreflexive(keys[a]); }
  }

  /** The fields of members with distinct names, told by what they are at each member. */
  lemma FieldsAre(fl: Floats, ms: seq<Member>, fields: map<string, Value>)
    requires forall a: nat, b: nat :: a < b < |ms| ==> ms[a].name != ms[b].name
    requires forall i: nat :: i < |ms| ==> ms[i].name in fields && fields[ms[i].name] == ValueOf(fl, ms[i].value)
    requires forall k <- fields :: exists i: nat :: i < |ms| && ms[i].name == k
    ensures FieldsOf(fl, ms) == fields
  {
    FieldsFrom(fl, ms);
    forall k | k in fields ensures k in FieldsOf(fl, ms) && FieldsOf(fl, ms)[k] == fields[k] {
      var i: nat :| i < |ms| && ms[i].name == k;
      FieldsAt(fl, ms, i);
    }
  }

  function RoundedFields(fl: Floats, fields: map<string, Value>): map<string, Value> {
    map k <- fields :: Rounded(fl, fields[k])
  }

  lemma MembersRounded(fl: Floats, v: Value, keys: seq<string>)
    requires v.Object? && forall k <- v.fields :: ValueOf(fl, TreeOf(fl, v.fields[k])) == Rounded(fl, v.fields[k])
    requires forall k :: k in keys <==> k in v.fields
    requires forall a: nat, b: nat :: a < b < |keys| ==> keys[a] != keys[b]
    ensures FieldsOf(fl, MembersOf(fl, v, keys)) == RoundedFields(fl, v.fields)
  {
    var ms, fields := MembersOf(fl, v, keys), RoundedFields(fl, v.fields);
    forall i: nat | i < |ms| ensures ms[i].name in fields && fields[ms[i].name] == ValueOf(fl, ms[i].value) {
      assert keys[i] in keys && ms[i].name == keys[i];
    }
    forall k <- fields ensures exists i: nat :: i < |ms| && ms[i].name == k {
      assert k in keys;
      var i: nat :| i < |keys| && keys[i] == k;
      assert ms[i].name == k;
    }
    FieldsAre(fl, ms, fields);
  }

  lemma ItemsValue(fl: Floats, v: Value)
    requires v.Array?
    requires forall i: nat :: i < |v.items| ==> ValueOf(fl, TreeOf(fl, v.items[i])) == Rounded(fl, v.items[i])
    ensures ValueOf(fl, Arr(ItemsOf(fl, v))) == Rounded(fl, v)
  {
  }

  /** Decoding what is written for a value gives the value back, up to the digits that `%e` loses. */
  lemma {:induction false} ValueOfTree(fl: Floats, v: Value)
    ensures ValueOf(fl, TreeOf(fl, v)) == Rounded(fl, v)
    decreases v
  {
    match v
    case Object(fields) =>
      forall k | k in fields { ValueOfTree(fl, fields[k]); }
      SortedKeysAscend(fields.Keys);
      AscendingIsDistinct(SortedKeys(fields.Keys));
      MembersRounded(fl, v, SortedKeys(fields.Keys));
    case Array(items) =>
      forall i: nat | i < |items| { ValueOfTree(fl, items[i]); }
      ItemsValue(fl, v);
    case _ =>
  }

  /** A tree is what is written for its value if and only if its names ascend everywhere. */
  lemma TreeOfValue(fl: Floats, t: Tree)
    requires Printed(fl, t)
    ensures TreeOf(fl, ValueOf(fl, t)) == t <==> Ordered(t)
  {
    TreesAreOrdered(fl, ValueOf(fl, t));
    if Ordered(t) { OrderedIsWritten(fl, t); }
  }

  lemma SortedNames(fl: Floats, ms: seq<Member>)
    requires Ascending(Names(ms))
    ensures SortedKeys(FieldsOf(fl, ms).Keys) == Names(ms)
  {
    var fields := FieldsOf(fl, ms);
    FieldsFrom(fl, ms);
    SortedKeysAscend(fields.Keys);
    forall k ensures k in Names(ms) <==> k in SortedKeys(fields.Keys) {
      if k in Names(ms) { var i: nat :| i < |ms| && Names(ms)[i] == k; }
    }
    AscendingIsUnique(Names(ms), SortedKeys(fields.Keys));
  }

  lemma OrderedMembers(fl: Floats, ms: seq<Member>)
    requires Ascending(Names(ms))
    requires forall i: nat :: i < |ms| ==> TreeOf(fl, ValueOf(fl, ms[i].value)) == ms[i].value
    ensures TreeOf(fl, Object(FieldsOf(fl, ms))) == Obj(ms)
  {
    var fields := FieldsOf(fl, ms);
    SortedNames(fl, ms);
    AscendingIsDistinct(Names(ms));
    assert forall a: nat, b: nat :: a < b < |ms| ==> Names(ms)[a] != Names(ms)[b];
    forall i: nat | i < |ms| ensures ms[i].name in fields && TreeOf(fl, fields[ms[i].name]) == ms[i].value {
      FieldsAt(fl, ms, i);
    }
    MembersAre(fl, Object(fields), ms);
  }

  lemma MembersAre(fl: Floats, v: Value, ms: seq<Member>)
    requires v.Object?
    requires forall i: nat :: i < |ms| ==> ms[i].name in v.fields && TreeOf(fl, v.fields[ms[i].name]) == ms[i].value
    ensures (forall k <- Names(ms) :: k in v.fields) && MembersOf(fl, v, Names(ms)) == ms
  {
  }

  lemma {:induction false} OrderedIsWritten(fl: Floats, t: Tree)
    requires Printed(fl, t) && Ordered(t)
    ensures TreeOf(fl, ValueOf(fl, t)) == t
    decreases t
  {
    match t
    case Obj(ms) =>
      forall i: nat | i < |ms| { OrderedIsWritten(fl, ms[i].value); }
      OrderedMembers(fl, ms);
    case Arr(items) =>
      forall i: nat | i < |items| { OrderedIsWritten(fl, items[i]); }
      assert ItemsOf(fl, ValueOf(fl, t)) == items;
    case Leaf(_) =>
  }

  // ----- no two scalars meet -----

  predicate Separable(ts: seq<Token>) {
    forall i: nat :: i + 1 < |ts| ==> !(ts[i].Atom? && ts[i + 1].Atom?)
  }

  lemma SeparableAround(a: seq<Token>, t: Token, b: seq<Token>)
    requires Separable(a) && Separable(b) && !t.Atom?
    ensures Separable(a + [t] + b)
  {
    var ts := a + [t] + b;
    forall i: nat | i + 1 < |ts| ensures !(ts[i].Atom? && ts[i + 1].Atom?) {
      if i + 1 < |a| {
        assert ts[i] == a[i] && ts[i + 1] == a[i + 1];
      } else if i > |a| {
        assert ts[i] == b[i - |a| - 1] && ts[i + 1] == b[i - |a|];
      }
    }
  }

  lemma SeparableBetween(open: Token, body: seq<Token>, close: Token)
    requires Separable(body) && !open.Atom? && !close.Atom?
    ensures Separable([open] + body + [close])
  {
    SeparableAround([], open, body);
    assert [] + [open] + body == [open] + body;
    SeparableAround([open] + body, close, []);
    assert [open] + body + [close] + [] == [open] + body + [close];
  }

  lemma {:induction false} TokensSeparable(t: Tree)
    ensures Separable(Print(t))
    decreases t
  {
    match t
    case Leaf(_) =>
    case Obj(ms) =>
      MembersSeparable(ms);
      SeparableBetween(LBrace, PrintMembers(ms), RBrace);
    case Arr(items) =>
      ItemsSeparable(items);
      SeparableBetween(LBracket, PrintItems(items), RBracket);
  }

  lemma {:induction false} MembersSeparable(ms: seq<Member>)
    ensures Separable(PrintMembers(ms))
    decreases ms
  {
    if |ms| == 0 {
    } else {
      var name, x := [Atom(Str(ms[0].name))], Print(ms[0].value);
      TokensSeparable(ms[0].value);
      SeparableAround(name, Colon, x);
      assert name + [Colon] + x == [Atom(Str(ms[0].name)), Colon] + x;
      if |ms| == 1 {
        assert PrintMembers(ms) == name + [Colon] + x;
      } else {
        MembersSeparable(ms[1..]);
        SeparableAround(name + [Colon] + x, Comma, PrintMembers(ms[1..]));
        assert PrintMembers(ms) == name + [Colon] + x + [Comma] + PrintMembers(ms[1..]);
      }
    }
  }

  lemma {:induction false} ItemsSeparable(ts: seq<Tree>)
    ensures Separable(PrintItems(ts))
    decreases ts
  {
    if |ts| == 0 {
    } else {
      TokensSeparable(ts[0]);
      if |ts| == 1 {
        assert PrintItems(ts) == Print(ts[0]);
      } else {
        ItemsSeparable(ts[1..]);
        SeparableAround(Print(ts[0]), Comma, PrintItems(ts[1..]));
        assert PrintItems(ts) == Print(ts[0]) + [Comma] + PrintItems(ts[1..]);
      }
    }
  }
}
