/**
 `NormalizedJSON` as a whole: decode, print, and put the printed text into Unicode normalization form C. The
 keys are sorted before, and strings are escaped before, so a normal form need not be one of its own, and need
 not even be a JSON text.
 */
module JsonNormal {
  import opened Wrappers
  import opened StringOrder
  import opened Json
  import opened JsonText

  type Nfc = string -> string

  predicate IsAscii(c: char) {
    c < '\U{0080}'
  }

  predicate Ascii(s: string) {
    forall i: nat :: i < |s| ==> IsAscii(s[i])
  }

  /** Nothing in the text is written as an escape. */
  predicate Plain(s: string) {
    forall i: nat :: i < |s| ==> Escape(s[i]) == [s[i]]
  }

  ghost predicate Settles(nfc: Nfc, s: string) {
    nfc(nfc(s)) == nfc(s) && (Ascii(s) ==> nfc(s) == s) && (Plain(s) ==> Plain(nfc(s)))
  }

  ghost predicate SplitsAt(nfc: Nfc, a: string, c: char, b: string) {
    nfc(a + [c] + b) == nfc(a) + [c] + nfc(b)
  }

  /** A leading ASCII character stays and does not matter to what follows, or a composed character replaces it. */
  ghost predicate StaysOrComposes(nfc: Nfc, c: char, s: string) {
    nfc([c] + s) == [c] + nfc(s) || (|nfc([c] + s)| > 0 && !IsAscii(nfc([c] + s)[0]))
  }

  /**
   What is used of the form: it is idempotent; leaves ASCII alone; nothing composes with a quote or a
   backslash; and it makes no character that has to be escaped.
   */
  ghost predicate Normalizer(nfc: Nfc) {
    && (forall s: string :: Settles(nfc, s))
    && (forall a: string, c: char, b: string :: c == '\"' || c == '\\' ==> SplitsAt(nfc, a, c, b))
    && (forall c: char, s: string :: IsAscii(c) ==> StaysOrComposes(nfc, c, s))
  }

  /** The decoder reads what the normalization writer has let through. */
  ghost function NormalForm(fl: Floats, nfc: Nfc, v: Value): string {
    nfc(WrittenText(fl, v))
  }

  ghost function Normalized(fl: Floats, nfc: Nfc, s: string): Option<string> {
    match Decode(fl, s)
    case Some(v) => Some(NormalForm(fl, nfc, v))
    case None => None
  }

  // ----- one string -----

  /** No letter or digit that ends an escape composes with what follows it. */
  predicate Intact(nfc: Nfc, s: string) {
    |s| == 0 || (
      && Intact(nfc, s[1..])
      && (Escape(s[0]) != [s[0]] ==>
            nfc(Escape(s[0])[1..] + EscapeAll(s[1..])) == Escape(s[0])[1..] + nfc(EscapeAll(s[1..]))))
  }

  /** What a written string is read back as. */
  function Image(nfc: Nfc, s: string): string {
    match LexString(nfc(EscapeAll(s)) + "\"")
    case Some((t, _)) => t
    case None => ""
  }

  lemma {:induction false} PlainEscapes(p: string)
    requires Plain(p)
    ensures EscapeAll(p) == p
  {
    if |p| == 0 {
    } else {
      assert Plain(p[1..]) by { assert forall i: nat :: i < |p[1..]| ==> p[1..][i] == p[i + 1]; }
      PlainEscapes(p[1..]);
      assert p == [p[0]] + p[1..];
    }
  }

  lemma {:induction false} EscapeConcat(a: string, b: string)
    ensures EscapeAll(a + b) == EscapeAll(a) + EscapeAll(b)
  {
    if |a| == 0 {
      assert a + b == b;
    } else {
      assert (a + b)[1..] == a[1..] + b;
      EscapeConcat(a[1..], b);
      Associative(Escape(a[0]), EscapeAll(a[1..]), EscapeAll(b));
    }
  }

  /** A failure to read what follows is a failure to read the whole. */
  lemma {:induction false} FailsBehind(s: string, tail: string)
    requires LexString(tail) == None
    ensures LexString(EscapeAll(s) + tail) == None
  {
    if |s| == 0 {
      assert EscapeAll(s) + tail == tail;
    } else {
      FailsBehind(s[1..], tail);
      EscapeAllSplit(s, tail);
      EscapeInverts(s[0], EscapeAll(s[1..]) + tail);
    }
  }

  /** The first characters of `y` are those of `tail`, then comes one that is not ASCII. */
  predicate BreaksIn(tail: string, y: string, k: nat) {
    k < |tail| && k < |y| && y[..k] == tail[..k] && !IsAscii(y[k])
  }

  lemma {:induction false} TailStaysOrBreaks(nfc: Nfc, tail: string, s: string) returns (k: nat)
    requires Normalizer(nfc) && Ascii(tail)
    ensures nfc(tail + s) == tail + nfc(s) || BreaksIn(tail, nfc(tail + s), k)
  {
    if |tail| == 0 {
      k := 0;
      assert tail + s == s && tail + nfc(s) == nfc(s);
    } else {
      var j := TailStaysOrBreaks(nfc, tail[1..], s);
      assert IsAscii(tail[0]) && StaysOrComposes(nfc, tail[0], tail[1..] + s);
      assert tail + s == [tail[0]] + (tail[1..] + s);
      assert tail + nfc(s) == [tail[0]] + (tail[1..] + nfc(s));
      if nfc(tail + s) == [tail[0]] + nfc(tail[1..] + s) {
        k := j + 1;
        if BreaksIn(tail[1..], nfc(tail[1..] + s), j) {
          var y := nfc(tail[1..] + s);
          assert ([tail[0]] + y)[..k] == [tail[0]] + y[..j] && tail[..k] == [tail[0]] + tail[1..][..j];
        }
      } else {
        k := 0;
      }
    }
  }

  /** An escape that is broken cannot be read. */
  lemma BrokenEscape(c: char, y: string, k: nat, rest: string)
    requires Escape(c) != [c] && BreaksIn(Escape(c)[1..], y, k)
    ensures LexString(['\\'] + (y + rest)) == None
  {
    var s := ['\\'] + (y + rest);
    assert s[1 + k] == y[k] && forall i: nat :: i < k ==> s[1 + i] == y[..k][i];
    if |Escape(c)| == 6 && k > 0 {
      assert s[1] == 'u';
      if |s| >= 6 {
        assert s[2..6][k - 1] == y[k];
        assert HexValue(y[k]) == None;
      }
    }
  }

  /** `p` is the plain text since the last escape. */
  lemma {:induction false} Runs(nfc: Nfc, p: string, s: string, rest: string) returns (t: string)
    requires Normalizer(nfc) && Plain(p)
    ensures Intact(nfc, s) ==> nfc(p + EscapeAll(s)) == EscapeAll(t)
    ensures !Intact(nfc, s) ==> LexString(nfc(p + EscapeAll(s)) + (['\"'] + rest)) == None
    decreases |s|
  {
    if |s| == 0 {
      assert p + EscapeAll(s) == p;
      t := nfc(p);
      assert Settles(nfc, p);
      PlainEscapes(t);
    } else if Escape(s[0]) == [s[0]] {
      var q := p + [s[0]];
      assert p + EscapeAll(s) == q + EscapeAll(s[1..]);
      t := Runs(nfc, q, s[1..], rest);
    } else {
      var u := Runs(nfc, "", s[1..], rest);
      t := nfc(p) + ([s[0]] + u);
      EscapedRun(nfc, p, s, rest, u);
    }
  }

  /** The string is `p`, then an escape, then more; `u` is what more is written as. */
  lemma EscapedRun(nfc: Nfc, p: string, s: string, rest: string, u: string)
    requires Normalizer(nfc) && Plain(p) && |s| > 0 && Escape(s[0]) != [s[0]]
    requires var z := nfc("" + EscapeAll(s[1..]));
             && (Intact(nfc, s[1..]) ==> z == EscapeAll(u))
             && (!Intact(nfc, s[1..]) ==> LexString(z + (['\"'] + rest)) == None)
    ensures Intact(nfc, s) ==> nfc(p + EscapeAll(s)) == EscapeAll(nfc(p) + ([s[0]] + u))
    ensures !Intact(nfc, s) ==> LexString(nfc(p + EscapeAll(s)) + (['\"'] + rest)) == None
  {
    var c, more, close := s[0], EscapeAll(s[1..]), ['\"'] + rest;
    var tail := Escape(c)[1..];
    var q, y, z := nfc(p), nfc(tail + more), nfc(more);
    assert "" + more == more;
    EscapeTail(c);
    AfterBackslash(nfc, p, tail, more);
    Associative(['\\'], tail, more);
    assert Settles(nfc, p);
    PlainEscapes(q);
    var k := TailStaysOrBreaks(nfc, tail, more);
    if y == tail + z {
      Associative(['\\'], tail, z);
      if Intact(nfc, s[1..]) {
        EscapeConcat(q, [c] + u);
        assert ([c] + u)[1..] == u;
      } else {
        EscapeInverts(c, z + close);
        FailsBehind(q, Escape(c) + (z + close));
        Regroup4(q, Escape(c), z, close);
      }
    } else {
      BrokenEscape(c, y, k, close);
      FailsBehind(q, ['\\'] + (y + close));
      Regroup4(q, ['\\'], y, close);
    }
  }

  lemma EscapeTail(c: char)
    requires Escape(c) != [c]
    ensures Escape(c) == ['\\'] + Escape(c)[1..] && Ascii(Escape(c)[1..])
  {
  }

  lemma Regroup4(a: string, b: string, c: string, d: string)
    ensures a + (b + c) + d == a + (b + (c + d))
  {
  }

  lemma AfterBackslash(nfc: Nfc, p: string, tail: string, more: string)
    requires Normalizer(nfc)
    ensures nfc(p + (['\\'] + (tail + more))) == nfc(p) + (['\\'] + nfc(tail + more))
  {
    Associative(p, ['\\'], tail + more);
    Associative(nfc(p), ['\\'], nfc(tail + more));
    assert SplitsAt(nfc, p, '\\', tail + more);
  }

  /** A string is written as some string, and read back as that one, if it is intact; if not it is not read at all. */
  lemma WrittenString(nfc: Nfc, s: string, rest: string)
    requires Normalizer(nfc)
    ensures Intact(nfc, s) ==> nfc(EscapeAll(s)) == EscapeAll(Image(nfc, s))
    ensures !Intact(nfc, s) ==> LexString(nfc(EscapeAll(s)) + (['\"'] + rest)) == None
  {
    assert "" + EscapeAll(s) == EscapeAll(s);
    var t := Runs(nfc, "", s, rest);
    if Intact(nfc, s) {
      StringInverts(t, "");
      assert ['\"'] + "" == "\"";
    }
  }

  // ----- the written text -----

  /** The text of the tokens with every string as the writer lets it through. */
  function Filtered(nfc: Nfc, ts: seq<Token>): string {
    if |ts| == 0 then "" else FilteredToken(nfc, ts[0]) + Filtered(nfc, ts[1..])
  }

  function FilteredToken(nfc: Nfc, t: Token): string {
    if IsString(t) then ['\"'] + nfc(EscapeAll(t.scalar.text)) + ['\"'] else TokenText(t)
  }

  predicate IsString(t: Token) {
    t.Atom? && t.scalar.Str?
  }

  lemma TokenIsAscii(t: Token)
    requires !IsString(t)
    ensures Ascii(TokenText(t))
  {
    if t.Atom? && t.scalar.Num? {
      NumberStarts(t.scalar.number);
      AsciiChars(t.scalar.number);
    }
  }

  lemma AsciiChars(s: string)
    requires forall c <- s :: IsNumberChar(c)
    ensures Ascii(s)
  {
    forall i: nat | i < |s| ensures IsAscii(s[i]) { assert s[i] in s; }
  }

  lemma FilterQuoted(nfc: Nfc, a: string, e: string, more: string)
    requires Normalizer(nfc) && Ascii(a)
    ensures nfc(a + (['\"'] + e + ['\"'] + more)) == a + (['\"'] + nfc(e) + ['\"'] + nfc(more))
  {
    var b := e + ['\"'] + more;
    QuoteShape(a, e, more);
    QuoteShape(a, nfc(e), nfc(more));
    assert SplitsAt(nfc, a, '\"', b) && SplitsAt(nfc, e, '\"', more) && Settles(nfc, a);
  }

  lemma QuoteShape(a: string, e: string, more: string)
    ensures a + (['\"'] + e + ['\"'] + more) == a + ['\"'] + (e + ['\"'] + more)
  {
  }

  /** Between strings all is ASCII, so the writer works on each string by itself. */
  lemma {:induction false} FilterWorksOnStrings(nfc: Nfc, a: string, ts: seq<Token>)
    requires Normalizer(nfc) && Ascii(a)
    ensures nfc(a + Render(ts)) == a + Filtered(nfc, ts)
    decreases |ts|
  {
    if |ts| == 0 {
      assert a + Render(ts) == a && a + Filtered(nfc, ts) == a;
      assert Settles(nfc, a);
    } else if IsString(ts[0]) {
      FilterWorksOnStrings(nfc, "", ts[1..]);
      assert "" + Render(ts[1..]) == Render(ts[1..]) && "" + Filtered(nfc, ts[1..]) == Filtered(nfc, ts[1..]);
      FilterQuoted(nfc, a, EscapeAll(ts[0].scalar.text), Render(ts[1..]));
    } else {
      var x := TokenText(ts[0]);
      TokenIsAscii(ts[0]);
      FilterWorksOnStrings(nfc, a + x, ts[1..]);
      Associative(a, x, Render(ts[1..]));
      Associative(a, x, Filtered(nfc, ts[1..]));
    }
  }

  predicate AllIntact(nfc: Nfc, ts: seq<Token>) {
    forall i: nat :: i < |ts| && IsString(ts[i]) ==> Intact(nfc, ts[i].scalar.text)
  }

  function ImageToken(nfc: Nfc, t: Token): Token {
    if IsString(t) then Atom(Str(Image(nfc, t.scalar.text))) else t
  }

  function Images(nfc: Nfc, ts: seq<Token>): (r: seq<Token>)
    ensures |r| == |ts| && forall i: nat :: i < |ts| ==> r[i] == ImageToken(nfc, ts[i])
  {
    seq(|ts|, (i: nat) requires i < |ts| => ImageToken(nfc, ts[i]))
  }

  lemma {:induction false} IntactIsRendered(nfc: Nfc, ts: seq<Token>)
    requires Normalizer(nfc) && AllIntact(nfc, ts)
    ensures Filtered(nfc, ts) == Render(Images(nfc, ts))
  {
    if |ts| == 0 {
    } else {
      if IsString(ts[0]) { WrittenString(nfc, ts[0].scalar.text, ""); }
      IntactIsRendered(nfc, ts[1..]);
      assert Images(nfc, ts)[1..] == Images(nfc, ts[1..]);
    }
  }

  lemma BrokenString(nfc: Nfc, t: Token, rest: string)
    requires Normalizer(nfc) && IsString(t) && !Intact(nfc, t.scalar.text)
    ensures Lex(FilteredToken(nfc, t) + rest) == None
  {
    WrittenString(nfc, t.scalar.text, rest);
    QuotedRead(nfc(EscapeAll(t.scalar.text)), rest);
  }

  lemma IntactToken(nfc: Nfc, t: Token)
    requires Normalizer(nfc) && (IsString(t) ==> Intact(nfc, t.scalar.text))
    ensures FilteredToken(nfc, t) == TokenText(ImageToken(nfc, t))
  {
    if IsString(t) { WrittenString(nfc, t.scalar.text, ""); }
  }

  lemma {:induction false} BrokenIsNotRead(nfc: Nfc, ts: seq<Token>)
    requires Normalizer(nfc) && Separable(ts) && !AllIntact(nfc, ts)
    ensures Lex(Filtered(nfc, ts)) == None
  {
    SeparableTail(ts);
    if IsString(ts[0]) && !Intact(nfc, ts[0].scalar.text) {
      BrokenString(nfc, ts[0], Filtered(nfc, ts[1..]));
    } else {
      BrokenBehind(nfc, ts);
      BrokenIsNotRead(nfc, ts[1..]);
      IntactToken(nfc, ts[0]);
      if ts[0].Atom? && |ts| > 1 { FilteredStart(nfc, ts[1..]); }
      TokenInverts(ImageToken(nfc, ts[0]), Filtered(nfc, ts[1..]));
    }
  }

  lemma BrokenBehind(nfc: Nfc, ts: seq<Token>)
    requires !AllIntact(nfc, ts)
    requires |ts| > 0 && IsString(ts[0]) ==> Intact(nfc, ts[0].scalar.text)
    ensures |ts| > 0 && !AllIntact(nfc, ts[1..])
  {
    var i: nat :| i < |ts| && IsString(ts[i]) && !Intact(nfc, ts[i].scalar.text);
    assert ts[1..][i - 1] == ts[i];
  }

  /** What follows a number is not part of it. */
  lemma FilteredStart(nfc: Nfc, ts: seq<Token>)
    requires |ts| > 0 && !ts[0].Atom?
    ensures |Filtered(nfc, ts)| > 0 && !IsNumberChar(Filtered(nfc, ts)[0])
  {
  }

  // ----- values -----

  /** The tree with every string replaced by what it is read back as; the order of the members stays. */
  function ImageTree(nfc: Nfc, t: Tree): Tree
    decreases t
  {
    match t
    case Obj(ms) => Obj(ImageMembers(nfc, ms))
    case Arr(items) => Arr(ImageItems(nfc, items))
    case Leaf(s) => Leaf(if s.Str? then Str(Image(nfc, s.text)) else s)
  }

  function ImageMembers(nfc: Nfc, ms: seq<Member>): (r: seq<Member>)
    ensures |r| == |ms|
    ensures forall i: nat :: i < |ms| ==> r[i] == Member(Image(nfc, ms[i].name), ImageTree(nfc, ms[i].value))
    decreases ms
  {
    seq(|ms|, (i: nat) requires i < |ms| => Member(Image(nfc, ms[i].name), ImageTree(nfc, ms[i].value)))
  }

  function ImageItems(nfc: Nfc, ts: seq<Tree>): (r: seq<Tree>)
    ensures |r| == |ts| && forall i: nat :: i < |ts| ==> r[i] == ImageTree(nfc, ts[i])
    decreases ts
  {
    seq(|ts|, (i: nat) requires i < |ts| => ImageTree(nfc, ts[i]))
  }

  lemma ImagesConcat(nfc: Nfc, a: seq<Token>, b: seq<Token>)
    ensures Images(nfc, a + b) == Images(nfc, a) + Images(nfc, b)
  {
  }

  lemma {:induction false} ImageIsPrinted(nfc: Nfc, t: Tree)
    ensures Print(ImageTree(nfc, t)) == Images(nfc, Print(t))
    decreases t
  {
    match t
    case Obj(ms) =>
      ImageMembersPrinted(nfc, ms);
      ImagesConcat(nfc, [LBrace], PrintMembers(ms));
      ImagesConcat(nfc, [LBrace] + PrintMembers(ms), [RBrace]);
    case Arr(items) =>
      ImageItemsPrinted(nfc, items);
      ImagesConcat(nfc, [LBracket], PrintItems(items));
      ImagesConcat(nfc, [LBracket] + PrintItems(items), [RBracket]);
    case Leaf(_) =>
  }

  lemma {:induction false} ImageMembersPrinted(nfc: Nfc, ms: seq<Member>)
    ensures PrintMembers(ImageMembers(nfc, ms)) == Images(nfc, PrintMembers(ms))
    decreases ms
  {
    if |ms| == 0 {
    } else {
      ImageIsPrinted(nfc, ms[0].value);
      ImageMemberPrinted(nfc, ms[0], |ms| == 1);
      ImageMembersPrinted(nfc, ms[1..]);
      assert ImageMembers(nfc, ms)[1..] == ImageMembers(nfc, ms[1..]);
      ImagesConcat(nfc, PrintMember(ms[0], |ms| == 1), PrintMembers(ms[1..]));
    }
  }

  lemma ImageMemberPrinted(nfc: Nfc, m: Member, last: bool)
    requires Print(ImageTree(nfc, m.value)) == Images(nfc, Print(m.value))
    ensures PrintMember(Member(Image(nfc, m.name), ImageTree(nfc, m.value)), last) == Images(nfc, PrintMember(m, last))
  {
    ImagesConcat(nfc, [Atom(Str(m.name)), Colon], Print(m.value));
    ImagesConcat(nfc, [Atom(Str(m.name)), Colon] + Print(m.value), if last then [] else [Comma]);
  }

  lemma {:induction false} ImageItemsPrinted(nfc: Nfc, ts: seq<Tree>)
    ensures PrintItems(ImageItems(nfc, ts)) == Images(nfc, PrintItems(ts))
    decreases ts
  {
    if |ts| == 0 {
    } else {
      ImageIsPrinted(nfc, ts[0]);
      ImageItemsPrinted(nfc, ts[1..]);
      assert ImageItems(nfc, ts)[1..] == ImageItems(nfc, ts[1..]);
      ImagesConcat(nfc, Print(ts[0]), if |ts| == 1 then [] else [Comma]);
      ImagesConcat(nfc, PrintItem(ts[0], |ts| == 1), PrintItems(ts[1..]));
    }
  }

  /** The names and the texts of a tree. */
  function Strings(t: Tree): set<string>
    decreases t
  {
    match t
    case Obj(ms) => MemberStrings(ms)
    case Arr(items) => ItemStrings(items)
    case Leaf(s) => if s.Str? then {s.text} else {}
  }

  function MemberStrings(ms: seq<Member>): set<string>
    decreases ms
  {
    if |ms| == 0 then {} else {ms[0].name} + Strings(ms[0].value) + MemberStrings(ms[1..])
  }

  function ItemStrings(ts: seq<Tree>): set<string>
    decreases ts
  {
    if |ts| == 0 then {} else Strings(ts[0]) + ItemStrings(ts[1..])
  }

  function TokenStrings(ts: seq<Token>): set<string> {
    set i: nat | i < |ts| && IsString(ts[i]) :: ts[i].scalar.text
  }

  lemma TokenStringsConcat(a: seq<Token>, b: seq<Token>)
    ensures TokenStrings(a + b) == TokenStrings(a) + TokenStrings(b)
  {
    forall s | s in TokenStrings(a) + TokenStrings(b) ensures s in TokenStrings(a + b) {
      if i: nat :| i < |a| && IsString(a[i]) && a[i].scalar.text == s {
        assert (a + b)[i] == a[i];
      } else {
        var j: nat :| j < |b| && IsString(b[j]) && b[j].scalar.text == s;
        assert (a + b)[|a| + j] == b[j];
      }
    }
  }

  lemma {:induction false} StringsArePrinted(t: Tree)
    ensures TokenStrings(Print(t)) == Strings(t)
    decreases t
  {
    match t
    case Obj(ms) =>
      MemberStringsPrinted(ms);
      TokenStringsConcat([LBrace], PrintMembers(ms));
      TokenStringsConcat([LBrace] + PrintMembers(ms), [RBrace]);
    case Arr(items) =>
      ItemStringsPrinted(items);
      TokenStringsConcat([LBracket], PrintItems(items));
      TokenStringsConcat([LBracket] + PrintItems(items), [RBracket]);
    case Leaf(s) =>
      assert s.Str? ==> IsString([Atom(s)][0]) && [Atom(s)][0].scalar.text in TokenStrings([Atom(s)]);
  }

  lemma {:induction false} MemberStringsPrinted(ms: seq<Member>)
    ensures TokenStrings(PrintMembers(ms)) == MemberStrings(ms)
    decreases ms
  {
    if |ms| == 0 {
    } else {
      var m, comma := ms[0], if |ms| == 1 then [] else [Comma];
      var name := [Atom(Str(m.name)), Colon];
      StringsArePrinted(m.value);
      MemberStringsPrinted(ms[1..]);
      assert IsString(name[0]) && name[0].scalar.text in TokenStrings(name);
      assert TokenStrings(name) == {m.name} && TokenStrings(comma) == {};
      TokenStringsConcat(name, Print(m.value));
      TokenStringsConcat(name + Print(m.value), comma);
      TokenStringsConcat(PrintMember(m, |ms| == 1), PrintMembers(ms[1..]));
    }
  }

  lemma {:induction false} ItemStringsPrinted(ts: seq<Tree>)
    ensures TokenStrings(PrintItems(ts)) == ItemStrings(ts)
    decreases ts
  {
    if |ts| == 0 {
    } else {
      var comma := if |ts| == 1 then [] else [Comma];
      StringsArePrinted(ts[0]);
      ItemStringsPrinted(ts[1..]);
      TokenStringsConcat(Print(ts[0]), comma);
      TokenStringsConcat(PrintItem(ts[0], |ts| == 1), PrintItems(ts[1..]));
    }
  }

  lemma {:induction false} MemberStringsAt(ms: seq<Member>, i: nat)
    requires i < |ms|
    ensures ms[i].name in MemberStrings(ms) && Strings(ms[i].value) <= MemberStrings(ms)
  {
    if i == 0 {
    } else {
      MemberStringsAt(ms[1..], i - 1);
    }
  }

  lemma {:induction false} MemberStringsWithin(ms: seq<Member>, all: set<string>)
    requires forall i: nat :: i < |ms| ==> ms[i].name in all && Strings(ms[i].value) <= all
    ensures MemberStrings(ms) <= all
  {
    if |ms| == 0 {
    } else {
      assert forall i: nat :: i < |ms[1..]| ==> ms[1..][i] == ms[i + 1];
      MemberStringsWithin(ms[1..], all);
    }
  }

  lemma {:induction false} ItemStringsAt(ts: seq<Tree>, i: nat)
    requires i < |ts|
    ensures Strings(ts[i]) <= ItemStrings(ts)
  {
    if i == 0 {
    } else {
      ItemStringsAt(ts[1..], i - 1);
    }
  }

  lemma {:induction false} ItemStringsWithin(ts: seq<Tree>, all: set<string>)
    requires forall i: nat :: i < |ts| ==> Strings(ts[i]) <= all
    ensures ItemStrings(ts) <= all
  {
    if |ts| == 0 {
    } else {
      assert forall i: nat :: i < |ts[1..]| ==> ts[1..][i] == ts[i + 1];
      ItemStringsWithin(ts[1..], all);
    }
  }

  /** Decoding and printing again adds no strings. */
  lemma {:induction false} RewritingAddsNoStrings(fl: Floats, t: Tree)
    ensures Strings(TreeOf(fl, ValueOf(fl, t))) <= Strings(t)
    decreases t
  {
    match t
    case Obj(ms) =>
      var fields := FieldsOf(fl, ms);
      var keys := SortedKeys(fields.Keys);
      var ns := MembersOf(fl, Object(fields), keys);
      FieldsFrom(fl, ms);
      forall j: nat | j < |ns| ensures ns[j].name in MemberStrings(ms) && Strings(ns[j].value) <= MemberStrings(ms) {
        assert keys[j] in keys;
        var i: nat :| i < |ms| && ms[i].name == keys[j] && fields[keys[j]] == ValueOf(fl, ms[i].value);
        RewritingAddsNoStrings(fl, ms[i].value);
        MemberStringsAt(ms, i);
      }
      MemberStringsWithin(ns, MemberStrings(ms));
    case Arr(items) =>
      var ts := ItemsOf(fl, ValueOf(fl, t));
      forall i: nat | i < |items| ensures Strings(ts[i]) <= ItemStrings(items) {
        RewritingAddsNoStrings(fl, items[i]);
        ItemStringsAt(items, i);
      }
      ItemStringsWithin(ts, ItemStrings(items));
    case Leaf(_) =>
  }

  // ----- the normal form -----

  /** Every name and text of the value can be read where it is written. */
  ghost predicate Readable(fl: Floats, nfc: Nfc, v: Value) {
    forall s <- Strings(TreeOf(fl, v)) :: Intact(nfc, s)
  }

  /** The members of every object come out in the order of their names, each name once. */
  ghost predicate StaysOrdered(fl: Floats, nfc: Nfc, v: Value) {
    Ordered(ImageTree(nfc, TreeOf(fl, v)))
  }

  lemma ReadableTokens(fl: Floats, nfc: Nfc, v: Value)
    ensures Readable(fl, nfc, v) <==> AllIntact(nfc, Print(TreeOf(fl, v)))
  {
    var ts := Print(TreeOf(fl, v));
    StringsArePrinted(TreeOf(fl, v));
    if AllIntact(nfc, ts) {
      forall s <- TokenStrings(ts) ensures Intact(nfc, s) {
        var i: nat :| i < |ts| && IsString(ts[i]) && ts[i].scalar.text == s;
      }
    } else {
      var i: nat :| i < |ts| && IsString(ts[i]) && !Intact(nfc, ts[i].scalar.text);
      assert ts[i].scalar.text in TokenStrings(ts);
    }
  }

  /** The normal form is a JSON text if and only if no escape was broken; then it is that of the images. */
  lemma NormalFormText(fl: Floats, nfc: Nfc, v: Value)
    requires Normalizer(nfc)
    ensures Decode(fl, NormalForm(fl, nfc, v)).Some? <==> Readable(fl, nfc, v)
    ensures Readable(fl, nfc, v) ==>
              && NormalForm(fl, nfc, v) == Render(Print(ImageTree(nfc, TreeOf(fl, v))))
              && Decode(fl, NormalForm(fl, nfc, v)) == Some(ValueOf(fl, ImageTree(nfc, TreeOf(fl, v))))
  {
    var t := TreeOf(fl, v);
    FilterWorksOnStrings(nfc, "", Print(t));
    assert "" + Render(Print(t)) == Render(Print(t)) && "" + Filtered(nfc, Print(t)) == Filtered(nfc, Print(t));
    ReadableTokens(fl, nfc, v);
    if Readable(fl, nfc, v) {
      IntactIsRendered(nfc, Print(t));
      ImageIsPrinted(nfc, t);
      RenderUnambiguous(fl, ImageTree(nfc, t), t);
    } else {
      TokensSeparable(t);
      BrokenIsNotRead(nfc, Print(t));
    }
  }

  predicate Settled(nfc: Nfc, s: string) {
    nfc(EscapeAll(s)) == EscapeAll(s)
  }

  lemma ImagesAreSettled(nfc: Nfc, t: Tree, s: string)
    requires Normalizer(nfc) && (forall x <- Strings(t) :: Intact(nfc, x))
    requires s in Strings(ImageTree(nfc, t))
    ensures Settled(nfc, s)
  {
    StringsArePrinted(t);
    StringsArePrinted(ImageTree(nfc, t));
    ImageIsPrinted(nfc, t);
    var i: nat :| i < |Print(t)| && IsString(Images(nfc, Print(t))[i]) && Images(nfc, Print(t))[i].scalar.text == s;
    var x := Print(t)[i].scalar.text;
    assert x in TokenStrings(Print(t));
    WrittenString(nfc, x, "");
    assert Settles(nfc, EscapeAll(x));
  }

  lemma {:induction false} SettledStays(nfc: Nfc, ts: seq<Token>)
    requires forall s <- TokenStrings(ts) :: Settled(nfc, s)
    ensures Filtered(nfc, ts) == Render(ts)
  {
    if |ts| == 0 {
    } else {
      TokenStringsConcat([ts[0]], ts[1..]);
      assert [ts[0]] + ts[1..] == ts;
      assert IsString([ts[0]][0]) ==> [ts[0]][0].scalar.text in TokenStrings([ts[0]]);
      SettledStays(nfc, ts[1..]);
    }
  }

  lemma SettledForm(fl: Floats, nfc: Nfc, v: Value)
    requires Normalizer(nfc) && forall s <- Strings(TreeOf(fl, v)) :: Settled(nfc, s)
    ensures NormalForm(fl, nfc, v) == WrittenText(fl, v)
  {
    var ts := Print(TreeOf(fl, v));
    StringsArePrinted(TreeOf(fl, v));
    FilterWorksOnStrings(nfc, "", ts);
    assert "" + Render(ts) == Render(ts) && "" + Filtered(nfc, ts) == Filtered(nfc, ts);
    SettledStays(nfc, ts);
  }

  lemma {:induction false} ImageKeepsNumbers(fl: Floats, nfc: Nfc, t: Tree)
    requires Printed(fl, t)
    ensures Printed(fl, ImageTree(nfc, t))
    decreases t
  {
    match t
    case Obj(ms) => forall i: nat | i < |ms| { ImageKeepsNumbers(fl, nfc, ms[i].value); }
    case Arr(items) => forall i: nat | i < |items| { ImageKeepsNumbers(fl, nfc, items[i]); }
    case Leaf(_) =>
  }

  /**
   When normalizing is idempotent: the normal form of a value is its own normal form if and only if no escape is
   followed by something that composes with its last letter, and in every object the names, in the order of the
   keys they were sorted by, are still strictly ascending when they are read back.
   */
  lemma FixedPointIff(fl: Floats, nfc: Nfc, v: Value)
    requires Lawful(fl) && Normalizer(nfc)
    ensures Normalized(fl, nfc, NormalForm(fl, nfc, v)) == Some(NormalForm(fl, nfc, v))
            <==> Readable(fl, nfc, v) && StaysOrdered(fl, nfc, v)
  {
    NormalFormText(fl, nfc, v);
    if Readable(fl, nfc, v) {
      var t := ImageTree(nfc, TreeOf(fl, v));
      var w := ValueOf(fl, t);
      RewritingAddsNoStrings(fl, t);
      forall s <- Strings(TreeOf(fl, w)) ensures Settled(nfc, s) { ImagesAreSettled(nfc, TreeOf(fl, v), s); }
      SettledForm(fl, nfc, w);
      RenderUnambiguous(fl, TreeOf(fl, w), t);
      TreesArePrinted(fl, v);
      ImageKeepsNumbers(fl, nfc, TreeOf(fl, v));
      TreeOfValue(fl, t);
    }
  }

  /**
   Which values share a normal form: one that is a JSON text is shared by exactly the values that can be read and
   agree, member by member in the order of their sorted keys, up to what their strings are read back as.
   */
  lemma SameFormIff(fl: Floats, nfc: Nfc, v: Value, w: Value)
    requires Normalizer(nfc) && Readable(fl, nfc, v)
    ensures NormalForm(fl, nfc, v) == NormalForm(fl, nfc, w)
            <==> Readable(fl, nfc, w) && ImageTree(nfc, TreeOf(fl, v)) == ImageTree(nfc, TreeOf(fl, w))
  {
    NormalFormText(fl, nfc, v);
    NormalFormText(fl, nfc, w);
    RenderUnambiguous(fl, ImageTree(nfc, TreeOf(fl, v)), ImageTree(nfc, TreeOf(fl, w)));
  }

  /** A string without escapes is intact, and read back as its normal form. */
  lemma {:induction false} PlainIsIntact(nfc: Nfc, s: string)
    requires Normalizer(nfc) && Plain(s)
    ensures Intact(nfc, s) && Image(nfc, s) == nfc(s)
  {
    PlainHasNoEscapes(nfc, s);
    WrittenString(nfc, s, "");
    PlainEscapes(s);
    assert Settles(nfc, s);
    PlainEscapes(nfc(s));
    StringInverts(nfc(s), "");
    assert ['\"'] + "" == "\"";
  }

  lemma {:induction false} PlainHasNoEscapes(nfc: Nfc, s: string)
    requires Plain(s)
    ensures Intact(nfc, s)
  {
    if |s| == 0 {
    } else {
      assert Plain(s[1..]) by { assert forall i: nat :: i < |s[1..]| ==> s[1..][i] == s[i + 1]; }
      PlainHasNoEscapes(nfc, s[1..]);
    }
  }

  // ----- the failing inputs -----

  const DECOMPOSED := "e\U{0301}"

  const COMPOSED := "\U{00E9}"

  /** An object with two numbers. */
  function TwoFields(a: string, b: string): Value {
    Object(map[a := Number(1), b := Number(2)])
  }

  function TwoMembers(fl: Floats, a: string, b: string): seq<Member> {
    [Member(a, Leaf(Num(fl.fmt(1))))] + [Member(b, Leaf(Num(fl.fmt(2))))]
  }

  lemma TwoKeys(a: string, b: string)
    requires Less(a, b)
    ensures a != b && SortedKeys({a, b}) == [a, b]
  {
    Irreflexive(a);
    AscendingPair(a, b);
    SortedKeysAscend({a, b});
    AscendingIsUnique([a, b], SortedKeys({a, b}));
  }

  lemma TwoFieldsTree(fl: Floats, a: string, b: string)
    requires Less(a, b)
    ensures TreeOf(fl, TwoFields(a, b)) == Obj(TwoMembers(fl, a, b))
  {
    TwoKeys(a, b);
    assert TwoFields(a, b).fields.Keys == {a, b};
    TwoMembersOf(fl, a, b);
  }

  lemma TwoMembersOf(fl: Floats, a: string, b: string)
    requires a != b
    ensures MembersOf(fl, TwoFields(a, b), [a, b]) == TwoMembers(fl, a, b)
  {
    var ms := MembersOf(fl, TwoFields(a, b), [a, b]);
    assert ms[0] == Member(a, TreeOf(fl, Number(1)));
    assert ms[1] == Member(b, TreeOf(fl, Number(2)));
    assert ms == [ms[0]] + [ms[1]];
  }

  lemma TwoStrings(fl: Floats, a: string, b: string)
    ensures Strings(Obj(TwoMembers(fl, a, b))) == {a, b}
  {
    var m, n := Member(a, Leaf(Num(fl.fmt(1)))), Member(b, Leaf(Num(fl.fmt(2))));
    assert Strings(m.value) == {} && Strings(n.value) == {};
    OneMember(n);
    assert ([m] + [n])[1..] == [n];
    assert MemberStrings([m] + [n]) == {a} + {} + MemberStrings([n]);
  }

  lemma OneMember(m: Member)
    ensures MemberStrings([m]) == {m.name} + Strings(m.value)
  {
    assert [m][1..] == [];
  }

  /** An object with two plain keys can be read, and its names are those keys in normal form. */
  lemma TwoImages(fl: Floats, nfc: Nfc, a: string, b: string)
    requires Normalizer(nfc) && Plain(a) && Plain(b) && Less(a, b)
    ensures Readable(fl, nfc, TwoFields(a, b))
    ensures ImageTree(nfc, TreeOf(fl, TwoFields(a, b))) == Obj(TwoMembers(fl, nfc(a), nfc(b)))
    ensures StaysOrdered(fl, nfc, TwoFields(a, b)) <==> Less(nfc(a), nfc(b))
  {
    TwoFieldsTree(fl, a, b);
    TwoStrings(fl, a, b);
    PlainIsIntact(nfc, a);
    PlainIsIntact(nfc, b);
    ImageOfTwo(fl, nfc, a, b);
    OrderOfTwo(fl, nfc(a), nfc(b));
  }

  lemma ImageOfTwo(fl: Floats, nfc: Nfc, a: string, b: string)
    ensures ImageMembers(nfc, TwoMembers(fl, a, b)) == TwoMembers(fl, Image(nfc, a), Image(nfc, b))
  {
    var r := ImageMembers(nfc, TwoMembers(fl, a, b));
    assert r == [r[0]] + [r[1]];
  }

  lemma OrderOfTwo(fl: Floats, a: string, b: string)
    ensures Ordered(Obj(TwoMembers(fl, a, b))) <==> Less(a, b)
  {
    assert Names(TwoMembers(fl, a, b)) == [a, b];
    AscendingPair(a, b);
  }

  lemma AscendingPair(a: string, b: string)
    ensures Ascending([a, b]) <==> Less(a, b)
  {
    var keys := [a, b];
    assert keys[0] == a && keys[1] == b;
  }

  /** Two plain keys whose normal forms are not in the order of the keys make a normal form that is not stable. */
  lemma DisorderedPair(fl: Floats, nfc: Nfc, a: string, b: string)
    requires Lawful(fl) && Normalizer(nfc) && Plain(a) && Plain(b) && Less(a, b) && !Less(nfc(a), nfc(b))
    ensures var out := NormalForm(fl, nfc, TwoFields(a, b));
            && Decode(fl, out) == Some(Object(FieldsOf(fl, TwoMembers(fl, nfc(a), nfc(b)))))
            && Normalized(fl, nfc, out) != Some(out)
  {
    TwoImages(fl, nfc, a, b);
    FixedPointIff(fl, nfc, TwoFields(a, b));
    NormalFormText(fl, nfc, TwoFields(a, b));
  }

  lemma Accents(nfc: Nfc)
    requires Normalizer(nfc) && nfc(DECOMPOSED) == COMPOSED
    ensures Plain(DECOMPOSED) && Plain(COMPOSED) && Plain("z")
    ensures nfc(COMPOSED) == COMPOSED && nfc("z") == "z"
    ensures Less(DECOMPOSED, COMPOSED) && Less(DECOMPOSED, "z") && !Less(COMPOSED, "z")
    ensures !Less(COMPOSED, COMPOSED)
  {
    assert Settles(nfc, DECOMPOSED) && Settles(nfc, "z");
    Irreflexive(COMPOSED);
  }

  /**
   A decomposed `e` with an accent is sorted before `z` and written composed, which is sorted behind `z`:
   normalizing the normal form swaps the members.
   */
  lemma MembersSwap(fl: Floats, nfc: Nfc)
    requires Lawful(fl) && Normalizer(nfc) && nfc(DECOMPOSED) == COMPOSED
    ensures var out := NormalForm(fl, nfc, TwoFields(DECOMPOSED, "z"));
            Decode(fl, out).Some? && Normalized(fl, nfc, out) != Some(out)
  {
    Accents(nfc);
    DisorderedPair(fl, nfc, DECOMPOSED, "z");
  }

  /** Two keys that differ only in composition come out as one name, twice, and one member is lost on decoding. */
  lemma MemberIsLost(fl: Floats, nfc: Nfc)
    requires Lawful(fl) && Normalizer(nfc) && nfc(DECOMPOSED) == COMPOSED
    ensures var out := NormalForm(fl, nfc, TwoFields(DECOMPOSED, COMPOSED));
            Decode(fl, out) == Some(Object(map[COMPOSED := Number(fl.parse(fl.fmt(2)))]))
  {
    Accents(nfc);
    DisorderedPair(fl, nfc, DECOMPOSED, COMPOSED);
    LastFieldStays(fl, COMPOSED);
  }

  lemma LastFieldStays(fl: Floats, a: string)
    ensures FieldsOf(fl, TwoMembers(fl, a, a)) == map[a := Number(fl.parse(fl.fmt(2)))]
  {
    var ms := TwoMembers(fl, a, a);
    assert ms[..1] == [ms[0]];
    assert FieldsOf(fl, [ms[0]]) == map[a := Number(fl.parse(fl.fmt(1)))] by { assert [ms[0]][..0] == []; }
  }

  /** A line break before a combining tilde: the `n` of its escape composes, and the backslash escapes nothing. */
  lemma EscapeIsBroken(fl: Floats, nfc: Nfc)
    requires Normalizer(nfc) && nfc("n\U{0303}") == "\U{00F1}"
    ensures Decode(fl, NormalForm(fl, nfc, Text("\n\U{0303}"))) == None
  {
    var s := "\n\U{0303}";
    BrokenLineBreak(nfc, s);
    assert s in Strings(TreeOf(fl, Text(s)));
    NormalFormText(fl, nfc, Text(s));
  }

  lemma BrokenLineBreak(nfc: Nfc, s: string)
    requires s == "\n\U{0303}" && nfc("n\U{0303}") == "\U{00F1}"
    ensures !Intact(nfc, s)
  {
    var rest := s[1..];
    assert rest == "\U{0303}" && rest[1..] == "";
    assert EscapeAll(rest) == Escape('\U{0303}') + EscapeAll("") == "\U{0303}";
    assert Escape('\n')[1..] == "n";
    assert "n" + "\U{0303}" == "n\U{0303}";
    assert "\U{00F1}"[0] != ("n" + nfc("\U{0303}"))[0];
  }
}
