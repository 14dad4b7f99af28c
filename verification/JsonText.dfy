/**
 The characters of JSON: strings escaped as Go escapes them, a lexer that inverts the text of tokens, and the printer
 as it is written, appending to a writer.
 */
module JsonText {
  import opened Wrappers
  import opened StringOrder
  import opened Json

  // ----- strings, as Go writes them -----

  predicate IsEscapedAsHex(c: char) {
    || (c < ' ' && c != '\n' && c != '\r' && c != '\t')
    || c == '<' || c == '>' || c == '&' || c == '\U{2028}' || c == '\U{2029}'
  }

  function HexDigit(n: nat): (c: char)
    requires n < 16
  {
    if n < 10 then (('0' as int) + n) as char else (('a' as int) + n - 10) as char
  }

  function Escape(c: char): (r: string)
    ensures |r| > 0
  {
    if c == '\"' then ['\\', '\"']
    else if c == '\\' then ['\\', '\\']
    else if c == '\n' then ['\\', 'n']
    else if c == '\r' then ['\\', 'r']
    else if c == '\t' then ['\\', 't']
    else if IsEscapedAsHex(c) then
      var n := c as int;
      ['\\', 'u', HexDigit(n / 4096), HexDigit(n / 256 % 16), HexDigit(n / 16 % 16), HexDigit(n % 16)]
    else [c]
  }

  function EscapeAll(s: string): string {
    if |s| == 0 then "" else Escape(s[0]) + EscapeAll(s[1..])
  }

  function ScalarText(s: Scalar): string {
    match s
    case Str(text) => ['\"'] + EscapeAll(text) + ['\"']
    case Num(number) => number
    case Bool(b) => if b then "true" else "false"
    case Null => "null"
  }

  function TokenText(t: Token): string {
    match t
    case LBrace => "{"
    case RBrace => "}"
    case LBracket => "["
    case RBracket => "]"
    case Colon => ":"
    case Comma => ","
    case Atom(s) => ScalarText(s)
  }

  function Render(ts: seq<Token>): string {
    if |ts| == 0 then "" else TokenText(ts[0]) + Render(ts[1..])
  }

  // ----- the lexer -----

  function HexValue(c: char): Option<nat> {
    if '0' <= c <= '9' then Some((c as int) - ('0' as int))
    else if 'a' <= c <= 'f' then Some((c as int) - ('a' as int) + 10)
    else if 'A' <= c <= 'F' then Some((c as int) - ('A' as int) + 10)
    else None
  }

  /** Four hexadecimal digits that are not half of a surrogate pair. */
  function HexChar(s: string): Option<char>
    requires |s| >= 4
  {
    match (HexValue(s[0]), HexValue(s[1]), HexValue(s[2]), HexValue(s[3]))
    case (Some(a), Some(b), Some(c), Some(d)) =>
      var n: int := a * 4096 + b * 256 + c * 16 + d;
      if 0 <= n < 0xD800 || 0xE000 <= n < 0x1_0000 then Some(n as char) else None
    case _ => None
  }

  /** The character after a backslash, for the escapes of two characters. */
  function ShortEscape(c: char): Option<char> {
    if c == '\"' || c == '\\' || c == '/' then Some(c)
    else if c == 'n' then Some('\n')
    else if c == 'r' then Some('\r')
    else if c == 't' then Some('\t')
    else if c == 'b' then Some('\U{0008}')
    else if c == 'f' then Some('\U{000C}')
    else None
  }

  function Prepend(c: char, r: Option<(string, string)>): Option<(string, string)> {
    match r
    case Some((s, rest)) => Some(([c] + s, rest))
    case None => None
  }

  /** The contents of a string, from behind its opening quote, and the text behind its closing one. */
  function LexString(s: string): (r: Option<(string, string)>)
    ensures r.Some? ==> |r.value.1| < |s|
  {
    if |s| == 0 then None
    else if s[0] == '\"' then Some(("", s[1..]))
    else if s[0] != '\\' then if s[0] < ' ' then None else Prepend(s[0], LexString(s[1..]))
    else if |s| >= 6 && s[1] == 'u' then
      match HexChar(s[2..6])
      case Some(c) => Prepend(c, LexString(s[6..]))
      case None => None
    else if |s| >= 2 then
      match ShortEscape(s[1])
      case Some(c) => Prepend(c, LexString(s[2..]))
      case None => None
    else None
  }

  /** How many characters from the start are number characters. */
  function NumberLength(s: string): (n: nat)
    ensures n <= |s| && (forall c <- s[..n] :: IsNumberChar(c)) && (n < |s| ==> !IsNumberChar(s[n]))
  {
    if |s| > 0 && IsNumberChar(s[0]) then
      var n := 1 + NumberLength(s[1..]);
      assert s[..n] == [s[0]] + s[1..][..n - 1];
      n
    else 0
  }

  function Punctuation(c: char): Option<Token> {
    if c == '{' then Some(LBrace)
    else if c == '}' then Some(RBrace)
    else if c == '[' then Some(LBracket)
    else if c == ']' then Some(RBracket)
    else if c == ':' then Some(Colon)
    else if c == ',' then Some(Comma)
    else None
  }

  /** The first token of a text that starts with one, and the text behind it. */
  function LexToken(s: string): (r: Option<(Token, string)>)
    requires |s| > 0
    ensures r.Some? ==> |r.value.1| < |s|
  {
    if Punctuation(s[0]).Some? then Some((Punctuation(s[0]).value, s[1..]))
    else if s[0] == '\"' then
      match LexString(s[1..])
      case Some((text, rest)) => Some((Atom(Str(text)), rest))
      case None => None
    else if s[0] == '-' || '0' <= s[0] <= '9' then LexNumber(s)
    else if "true" <= s then Some((Atom(Bool(true)), s[4..]))
    else if "false" <= s then Some((Atom(Bool(false)), s[5..]))
    else if "null" <= s then Some((Atom(Null), s[4..]))
    else None
  }

  function LexNumber(s: string): (r: Option<(Token, string)>)
    ensures r.Some? ==> |r.value.1| < |s|
  {
    var n := NumberLength(s);
    if IsNumberText(s[..n]) then Some((Atom(Num(s[..n])), s[n..])) else None
  }

  predicate IsSpace(c: char) {
    c == ' ' || c == '\t' || c == '\n' || c == '\r'
  }

  function Lex(s: string): Option<seq<Token>>
    decreases |s|
  {
    if |s| == 0 then Some([])
    else if IsSpace(s[0]) then Lex(s[1..])
    else match LexToken(s)
      case None => None
      case Some((t, rest)) =>
        match Lex(rest)
        case None => None
        case Some(ts) => Some([t] + ts)
  }

  // ----- the lexer inverts the rendering -----

  lemma DigitInverts(n: nat)
    requires n < 16
    ensures HexValue(HexDigit(n)) == Some(n)
  {
  }

  lemma FourDigits(n: nat)
    requires n < 0x1_0000
    ensures n / 4096 < 16
    ensures n == n / 4096 * 4096 + n / 256 % 16 * 256 + n / 16 % 16 * 16 + n % 16
  {
    assert n / 256 / 16 == n / 4096 && n / 16 / 16 == n / 256;
  }

  lemma HexInverts(n: nat, s: string)
    requires n < 0xD800 || 0xE000 <= n < 0x1_0000
    requires s == [HexDigit(n / 4096), HexDigit(n / 256 % 16), HexDigit(n / 16 % 16), HexDigit(n % 16)]
    ensures HexChar(s) == Some(n as char)
  {
    FourDigits(n);
    DigitInverts(n / 4096);
    DigitInverts(n / 256 % 16);
    DigitInverts(n / 16 % 16);
    DigitInverts(n % 16);
  }

  lemma EscapeInverts(c: char, tail: string)
    ensures LexString(Escape(c) + tail) == Prepend(c, LexString(tail))
  {
    var s := Escape(c) + tail;
    if |Escape(c)| == 6 {
      assert s[2..6] == Escape(c)[2..];
      HexInverts(c as int, s[2..6]);
      assert s[6..] == tail;
    } else if |Escape(c)| == 2 {
      assert s[2..] == tail;
    } else {
      assert s[1..] == tail;
    }
  }

  lemma QuoteEnds(rest: string)
    ensures LexString(['\"'] + rest) == Some(("", rest))
  {
    assert (['\"'] + rest)[1..] == rest;
  }

  /** No control character, and nothing that HTML or JavaScript would take as more than text. */
  predicate IsPlain(c: char) {
    c >= ' ' && c != '<' && c != '>' && c != '&' && c != '\U{2028}' && c != '\U{2029}'
  }

  /** Which characters are escaped, and how: five in two characters, the rest as four lower-case hexadecimal digits. */
  lemma EscapeForms(c: char)
    ensures forall x <- Escape(c) :: IsPlain(x)
    ensures Escape(c) == [c] <==> IsPlain(c) && c != '\"' && c != '\\'
    ensures |Escape(c)| == 2 <==> c == '\"' || c == '\\' || c == '\n' || c == '\r' || c == '\t'
    ensures Escape(c) == [c] || |Escape(c)| == 2 || |Escape(c)| == 6
    ensures |Escape(c)| == 6 ==>
              Escape(c)[..2] == "\\u" && forall x <- Escape(c)[2..] :: '0' <= x <= '9' || 'a' <= x <= 'f'
  {
  }

  /** So a string is written without any of those characters. */
  lemma {:induction false} EscapedIsPlain(text: string)
    ensures forall c <- EscapeAll(text) :: IsPlain(c)
  {
    if |text| > 0 {
      EscapeForms(text[0]);
      EscapedIsPlain(text[1..]);
    }
  }

  lemma EscapeAllSplit(text: string, tail: string)
    requires |text| > 0
    ensures EscapeAll(text) + tail == Escape(text[0]) + (EscapeAll(text[1..]) + tail)
  {
    Associative(Escape(text[0]), EscapeAll(text[1..]), tail);
  }

  lemma Associative(a: string, b: string, c: string)
    ensures a + b + c == a + (b + c)
  {
  }

  lemma CharacterRead(c: char, tail: string, s: string, rest: string)
    requires LexString(tail) == Some((s, rest))
    ensures LexString(Escape(c) + tail) == Some(([c] + s, rest))
  {
    EscapeInverts(c, tail);
  }

  lemma {:induction false} StringInverts(text: string, rest: string)
    ensures LexString(EscapeAll(text) + (['\"'] + rest)) == Some((text, rest))
  {
    var tail := ['\"'] + rest;
    if |text| == 0 {
      assert EscapeAll(text) + tail == tail;
      QuoteEnds(rest);
    } else {
      StringInverts(text[1..], rest);
      EscapeAllSplit(text, tail);
      CharacterRead(text[0], EscapeAll(text[1..]) + tail, text[1..], rest);
      assert [text[0]] + text[1..] == text;
    }
  }

  lemma {:induction false} NumberInverts(number: string, rest: string)
    requires forall c <- number :: IsNumberChar(c)
    requires |rest| > 0 ==> !IsNumberChar(rest[0])
    ensures NumberLength(number + rest) == |number|
  {
    if |number| == 0 {
      assert number + rest == rest;
    } else {
      NumberInverts(number[1..], rest);
      assert (number + rest)[1..] == number[1..] + rest;
      assert number[0] in number;
    }
  }

  /** A quote opens a string token. */
  lemma QuotedRead(x: string, rest: string)
    ensures var s := ['\"'] + x + ['\"'] + rest;
            LexToken(s) == match LexString(x + (['\"'] + rest))
                           case Some((text, more)) => Some((Atom(Str(text)), more))
                           case None => None
  {
    var s := ['\"'] + x + ['\"'] + rest;
    assert s[0] == '\"' && s[1..] == x + (['\"'] + rest);
  }

  lemma QuotedInverts(text: string, rest: string)
    ensures LexToken(ScalarText(Str(text)) + rest) == Some((Atom(Str(text)), rest))
  {
    QuotedRead(EscapeAll(text), rest);
    StringInverts(text, rest);
  }

  lemma NumberStarts(number: NumberText)
    ensures |number| > 0 && (forall c <- number :: IsNumberChar(c))
    ensures number[0] == '-' || '0' <= number[0] <= '9'
  {
  }

  lemma NumberTokenInverts(number: NumberText, rest: string)
    requires |rest| > 0 ==> !IsNumberChar(rest[0])
    ensures LexToken(number + rest) == Some((Atom(Num(number)), rest))
  {
    NumberStarts(number);
    NumberInverts(number, rest);
    assert LexToken(number + rest) == LexNumber(number + rest);
    assert (number + rest)[..|number|] == number && (number + rest)[|number|..] == rest;
  }

  lemma WordInverts(t: Token, rest: string)
    requires t.Atom? && (t.scalar.Bool? || t.scalar.Null?)
    ensures LexToken(TokenText(t) + rest) == Some((t, rest))
  {
    var word := TokenText(t);
    var s := word + rest;
    assert s[..|word|] == word && s[|word|..] == rest && s[0] == word[0];
  }

  lemma TokenInverts(t: Token, rest: string)
    requires t.Atom? && t.scalar.Num? && |rest| > 0 ==> !IsNumberChar(rest[0])
    ensures |TokenText(t)| > 0 && !IsSpace(TokenText(t)[0])
    ensures LexToken(TokenText(t) + rest) == Some((t, rest))
  {
    match t
    case Atom(Str(text)) => QuotedInverts(text, rest);
    case Atom(Num(number)) => NumberTokenInverts(number, rest);
    case Atom(_) => WordInverts(t, rest);
    case _ => assert (TokenText(t) + rest)[1..] == rest;
  }

  lemma SeparableTail(ts: seq<Token>)
    requires Separable(ts) && |ts| > 0
    ensures Separable(ts[1..])
    ensures |ts| > 1 && ts[0].Atom? ==> !ts[1].Atom?
  {
    forall i: nat | i + 1 < |ts[1..]| ensures !(ts[1..][i].Atom? && ts[1..][i + 1].Atom?) {
      assert !(ts[i + 1].Atom? && ts[i + 1 + 1].Atom?);
    }
  }

  lemma {:induction false} LexInverts(ts: seq<Token>)
    requires Separable(ts)
    ensures Lex(Render(ts)) == Some(ts)
  {
    if |ts| == 0 {
    } else {
      var rest := Render(ts[1..]);
      SeparableTail(ts);
      TokenInverts(ts[0], rest);
      LexInverts(ts[1..]);
      assert [ts[0]] + ts[1..] == ts;
    }
  }

  // ----- values as text -----

  /** What `marshal` writes for a value. */
  ghost function WrittenText(fl: Floats, v: Value): string {
    Render(Print(TreeOf(fl, v)))
  }

  /** `json.Unmarshal` into an empty interface. */
  function Decode(fl: Floats, s: string): Option<Value> {
    match Lex(s)
    case None => None
    case Some(ts) =>
      match ParseText(ts)
      case Some(t) => Some(ValueOf(fl, t))
      case None => None
  }

  /** The text determines the tree it was rendered from. */
  lemma RenderUnambiguous(fl: Floats, t: Tree, u: Tree)
    ensures Decode(fl, Render(Print(t))) == Some(ValueOf(fl, t))
    ensures Render(Print(t)) == Render(Print(u)) <==> t == u
  {
    TokensSeparable(t);
    TokensSeparable(u);
    LexInverts(Print(t));
    LexInverts(Print(u));
    PrintUnambiguous(t, u);
  }

  /**
   What `marshal` writes is a JSON text that decodes to the value it was written for, and no two values have
   the same one; both up to the digits that `%e` loses.
   */
  lemma TextUnambiguous(fl: Floats, v: Value, w: Value)
    requires Lawful(fl)
    ensures Decode(fl, WrittenText(fl, v)) == Some(Rounded(fl, v))
    ensures WrittenText(fl, v) == WrittenText(fl, w) <==> Rounded(fl, v) == Rounded(fl, w)
  {
    RenderUnambiguous(fl, TreeOf(fl, v), TreeOf(fl, w));
    ValueOfTree(fl, v);
    ValueOfTree(fl, w);
    TreesArePrinted(fl, v);
    TreesArePrinted(fl, w);
    TreesAreOrdered(fl, v);
    TreesAreOrdered(fl, w);
    OrderedIsWritten(fl, TreeOf(fl, v));
    OrderedIsWritten(fl, TreeOf(fl, w));
  }

  lemma {:induction false} RenderConcat(a: seq<Token>, b: seq<Token>)
    ensures Render(a + b) == Render(a) + Render(b)
  {
    if |a| == 0 {
      assert a + b == b;
    } else {
      assert (a + b)[1..] == a[1..] + b;
      RenderConcat(a[1..], b);
    }
  }

  lemma RenderOne(t: Token)
    ensures Render([t]) == TokenText(t)
  {
    assert [t][1..] == [];
    assert TokenText(t) + "" == TokenText(t);
  }

  lemma BracketText(open: Token, body: seq<Token>, close: Token)
    ensures Render([open] + body + [close]) == TokenText(open) + Render(body) + TokenText(close)
  {
    RenderOne(open);
    RenderOne(close);
    RenderConcat([open], body);
    RenderConcat([open] + body, [close]);
  }

  lemma MemberText(m: Member, last: bool)
    ensures Render(PrintMember(m, last)) ==
            ScalarText(Str(m.name)) + ":" + Render(Print(m.value)) + if last then "" else ","
  {
    RenderOne(Atom(Str(m.name)));
    RenderOne(Colon);
    RenderOne(Comma);
    RenderConcat([Atom(Str(m.name))], [Colon]);
    assert [Atom(Str(m.name)), Colon] == [Atom(Str(m.name))] + [Colon];
    RenderConcat([Atom(Str(m.name)), Colon], Print(m.value));
    RenderConcat([Atom(Str(m.name)), Colon] + Print(m.value), if last then [] else [Comma]);
  }

  lemma ItemText(t: Tree, last: bool)
    ensures Render(PrintItem(t, last)) == Render(Print(t)) + if last then "" else ","
  {
    RenderOne(Comma);
    RenderConcat(Print(t), if last then [] else [Comma]);
  }

  lemma Appended(out: string, open: string, body: string, close: string)
    ensures out + open + body + close == out + (open + body + close)
  {
  }

  lemma AppendedMember(out: string, name: string, value: string, comma: string)
    ensures out + name + ":" + value + comma == out + (name + ":" + value + comma)
  {
  }

  // ----- the printer as it is written -----

  /** The writer the procedures append to; it does not fail. */
  class Writer {
    var out: string

    constructor ()
      ensures out == ""
    {
      out := "";
    }

    method Write(s: string)
      modifies this
      ensures out == old(out) + s
    {
      out := out + s;
    }
  }

  method Marshal(w: Writer, fl: Floats, data: Value)
    modifies w
    ensures w.out == old(w.out) + WrittenText(fl, data)
    decreases data, 2, 0
  {
    match data
    case Object(_) => MarshalObject(w, fl, data);
    case Array(_) => MarshalArray(w, fl, data);
    case Number(x) =>
      RenderOne(Atom(Num(fl.fmt(x))));
      w.Write(fl.fmt(x));
    case Text(text) =>
      RenderOne(Atom(Str(text)));
      w.Write(ScalarText(Str(text)));
    case Boolean(b) =>
      RenderOne(Atom(Bool(b)));
      w.Write(ScalarText(Bool(b)));
    case Nil =>
      RenderOne(Atom(Null));
      w.Write(ScalarText(Null));
  }

  method MarshalObject(w: Writer, fl: Floats, data: Value)
    requires data.Object?
    modifies w
    ensures w.out == old(w.out) + WrittenText(fl, data)
    decreases data, 1, 0
  {
    w.Write("{");
    var keys := OrderedKeys(data.fields);
    MarshalMapOrderedKeys(w, fl, keys, data);
    w.Write("}");
    BracketText(LBrace, PrintMembers(MembersOf(fl, data, keys)), RBrace);
    Appended(old(w.out), "{", Render(PrintMembers(MembersOf(fl, data, keys))), "}");
  }

  /** The keys are collected in whatever order the map is ranged over, then sorted. */
  method OrderedKeys(data: map<string, Value>) returns (keys: seq<string>)
    ensures keys == SortedKeys(data.Keys)
  {
    keys := [];
    var todo := data.Keys;
    while todo != {}
      invariant todo <= data.Keys
      invariant forall k :: k in keys <==> k in data.Keys && k !in todo
      invariant forall i: nat, j: nat :: i < j < |keys| ==> keys[i] != keys[j]
    {
      var k :| k in todo;
      keys := keys + [k];
      todo := todo - {k};
    }
    keys := SortStrings(keys);
    SortedKeysAscend(data.Keys);
    AscendingIsUnique(keys, SortedKeys(data.Keys));
  }

  method MarshalMapOrderedKeys(w: Writer, fl: Floats, orderedKeys: seq<string>, data: Value)
    requires data.Object? && forall k <- orderedKeys :: k in data.fields
    modifies w
    ensures w.out == old(w.out) + Render(PrintMembers(MembersOf(fl, data, orderedKeys)))
    decreases data, 0, |orderedKeys|
  {
    ghost var ms := MembersOf(fl, data, orderedKeys);
    assert ms[0..] == ms;
    for index := 0 to |orderedKeys|
      invariant w.out + Render(PrintMembers(ms[index..])) == old(w.out) + Render(PrintMembers(ms))
    {
      ghost var one, more := PrintMember(ms[index], index == |ms| - 1), PrintMembers(ms[index + 1..]);
      assert ms[index..][1..] == ms[index + 1..];
      RenderConcat(one, more);
      Associative(w.out, Render(one), Render(more));
      MarshalMember(w, fl, orderedKeys[index], data, index == |orderedKeys| - 1);
    }
  }

  /** One turn of the loop above: key, colon, value, and a comma except after the last. */
  method MarshalMember(w: Writer, fl: Floats, key: string, data: Value, last: bool)
    requires data.Object? && key in data.fields
    modifies w
    ensures w.out == old(w.out) + Render(PrintMember(Member(key, TreeOf(fl, data.fields[key])), last))
    decreases data, 0, 0
  {
    var value := data.fields[key];
    MemberText(Member(key, TreeOf(fl, value)), last);
    AppendedMember(w.out, ScalarText(Str(key)), WrittenText(fl, value), if last then "" else ",");
    w.Write(ScalarText(Str(key)));
    w.Write(":");
    Marshal(w, fl, value);
    if !last {
      w.Write(",");
    }
  }

  method MarshalArray(w: Writer, fl: Floats, data: Value)
    requires data.Array?
    modifies w
    ensures w.out == old(w.out) + WrittenText(fl, data)
    decreases data, 1, 0
  {
    w.Write("[");
    MarshalItems(w, fl, data);
    w.Write("]");
    BracketText(LBracket, PrintItems(ItemsOf(fl, data)), RBracket);
    Appended(old(w.out), "[", Render(PrintItems(ItemsOf(fl, data))), "]");
  }

  method MarshalItems(w: Writer, fl: Floats, data: Value)
    requires data.Array?
    modifies w
    ensures w.out == old(w.out) + Render(PrintItems(ItemsOf(fl, data)))
    decreases data, 0, 0
  {
    ghost var ts := ItemsOf(fl, data);
    assert ts[0..] == ts;
    for index := 0 to |data.items|
      invariant w.out + Render(PrintItems(ts[index..])) == old(w.out) + Render(PrintItems(ts))
    {
      ghost var one, more := PrintItem(ts[index], index == |ts| - 1), PrintItems(ts[index + 1..]);
      assert ts[index..][1..] == ts[index + 1..];
      RenderConcat(one, more);
      Associative(w.out, Render(one), Render(more));
      ItemText(ts[index], index == |ts| - 1);
      Associative(w.out, Render(Print(ts[index])), if index == |data.items| - 1 then "" else ",");
      Marshal(w, fl, data.items[index]);
      if index < |data.items| - 1 {
        w.Write(",");
      }
    }
  }
}
