/**
 Paged collections: what a request's query parameters ask for, the links a response carries, and what a
 client sees that starts on page 1 and follows `next` until there is none. Integers are 64 bits wide.
 A query is a map from names to lists of values, as `url.Values` is.
 */
module Pagination {
  import opened Wrappers

  const DEFAULT_SIZE := 25

  const TWO_63 := 0x8000_0000_0000_0000

  predicate IsInt(n: int) {
    -TWO_63 <= n < TWO_63
  }

  predicate IsPositive(n: int) {
    1 <= n < TWO_63
  }

  /** What 64-bit arithmetic makes of a result. */
  function Wrap(n: int): (r: int)
    ensures IsInt(r) && (IsInt(n) ==> r == n) && (TWO_63 <= n < 2 * TWO_63 ==> r == n - 2 * TWO_63)
  {
    (n + TWO_63) % (2 * TWO_63) - TWO_63
  }

  // ----- integers as text -----

  function Digits(n: nat): (s: string)
    ensures |s| > 0
  {
    if n < 10 then [DigitChar(n)] else Digits(n / 10) + [DigitChar(n % 10)]
  }

  function DigitChar(n: nat): char
    requires n < 10
  {
    (('0' as int) + n) as char
  }

  function Itoa(n: int): string {
    if n < 0 then "-" + Digits(-n) else Digits(n)
  }

  function DigitsValue(s: string): Option<nat> {
    if |s| == 0 then Some(0)
    else
      var c := s[|s| - 1];
      match DigitsValue(s[..|s| - 1])
      case Some(n) => if '0' <= c <= '9' then Some(10 * n + ((c as int) - ('0' as int))) else None
      case None => None
  }

  /** An optional sign and at least one digit, in the range of 64 bits. */
  function Atoi(s: string): Option<int> {
    var signed := |s| > 0 && (s[0] == '-' || s[0] == '+');
    var digits := if signed then s[1..] else s;
    match DigitsValue(digits)
    case Some(n) =>
      var v := if signed && s[0] == '-' then 0 - (n as int) else n;
      if |digits| > 0 && IsInt(v) then Some(v) else None
    case None => None
  }

  lemma {:induction false} DigitsInvert(n: nat)
    ensures DigitsValue(Digits(n)) == Some(n)
    ensures '0' <= Digits(n)[0] <= '9'
  {
    var s := Digits(n);
    if n < 10 {
      assert s[..|s| - 1] == [];
    } else {
      DigitsInvert(n / 10);
      assert s[..|s| - 1] == Digits(n / 10);
    }
  }

  lemma AtoiInverts(n: int)
    requires IsInt(n)
    ensures Atoi(Itoa(n)) == Some(n)
    ensures Itoa(n) != ""
  {
    DigitsInvert(if n < 0 then -n else n);
    if n < 0 { assert Itoa(n)[1..] == Digits(-n); }
  }

  predicate AllDigits(s: string) {
    forall i: nat :: i < |s| ==> '0' <= s[i] <= '9'
  }

  lemma {:induction false} DigitsIff(s: string)
    ensures DigitsValue(s).Some? <==> AllDigits(s)
  {
    if |s| == 0 {
    } else {
      DigitsIff(s[..|s| - 1]);
      assert AllDigits(s) ==> AllDigits(s[..|s| - 1]);
      assert AllDigits(s[..|s| - 1]) && '0' <= s[|s| - 1] <= '9' ==> AllDigits(s);
    }
  }

  /** Each digit more is ten times as much and the digit. */
  lemma DigitsAppend(s: string, c: char)
    requires DigitsValue(s).Some? && '0' <= c <= '9'
    ensures DigitsValue(s + [c]) == Some(10 * DigitsValue(s).value + ((c as int) - ('0' as int)))
  {
    var t := s + [c];
    assert t[..|t| - 1] == s && t[|t| - 1] == c;
  }

  lemma AtoiUnsigned(s: string, n: nat)
    requires |s| > 0 && AllDigits(s) && DigitsValue(s) == Some(n)
    ensures Atoi(s) == (if IsInt(n) then Some(n) else None)
  {
    assert '0' <= s[0] <= '9';
  }

  lemma AtoiPlus(s: string, n: nat)
    requires |s| > 0 && DigitsValue(s) == Some(n)
    ensures Atoi(['+'] + s) == (if IsInt(n) then Some(n) else None)
  {
    assert (['+'] + s)[0] == '+' && (['+'] + s)[1..] == s;
  }

  lemma AtoiMinus(s: string, n: nat)
    requires |s| > 0 && DigitsValue(s) == Some(n)
    ensures Atoi(['-'] + s) == (if IsInt(0 - n) then Some(0 - n) else None)
  {
    assert (['-'] + s)[0] == '-' && (['-'] + s)[1..] == s;
  }

  /** A number is read with either sign or with none, and with nothing else around it. */
  lemma AtoiReads(s: string)
    requires AllDigits(s) && |s| > 0
    ensures DigitsValue(s).Some?
    ensures var n: int := DigitsValue(s).value;
            && Atoi(s) == (if IsInt(n) then Some(n) else None)
            && Atoi(['+'] + s) == (if IsInt(n) then Some(n) else None)
            && Atoi(['-'] + s) == (if IsInt(-n) then Some(-n) else None)
  {
    DigitsIff(s);
    AtoiUnsigned(s, DigitsValue(s).value);
    AtoiPlus(s, DigitsValue(s).value);
    AtoiMinus(s, DigitsValue(s).value);
  }

  lemma AtoiReadsOnly(s: string)
    requires Atoi(s).Some?
    ensures |s| > 0 && var digits := if s[0] == '-' || s[0] == '+' then s[1..] else s; |digits| > 0 && AllDigits(digits)
  {
    DigitsIff(s);
    if |s| > 0 { DigitsIff(s[1..]); }
  }

  // ----- requests and links -----

  datatype Request = Request(size: int, page: int, offset: int)

  datatype Error = InvalidSize | InvalidPage

  /** A parameter left empty has its default; one that is there is a positive integer. */
  function Positive(param: string, default: int): Option<int> {
    if param == "" then Some(default)
    else
      match Atoi(param)
      case Some(n) => if n < 1 then None else Some(n)
      case None => None
  }

  function Parsed(sizeParam: string, pageParam: string): Result<Request, Error> {
    match (Positive(sizeParam, DEFAULT_SIZE), Positive(pageParam, 1))
    case (None, _) => Err(InvalidSize)
    case (_, None) => Err(InvalidPage)
    case (Some(size), Some(page)) => Ok(Request(size, page, Wrap((page - 1) * size)))
  }

  /** A parameter that is there and is not the text of a positive integer. */
  predicate Refused(param: string) {
    param != "" && (Atoi(param).None? || Atoi(param).value < 1)
  }

  /**
   A request that is accepted has a size and a page between 1 and the largest integer, and the offset of its first
   record as 64 bits hold it; an empty parameter has its default. The size is refused first.
   */
  method ParsePaginatedRequest(sizeParam: string, pageParam: string) returns (r: Result<Request, Error>)
    ensures r.Ok? ==>
              && IsPositive(r.value.size) && IsPositive(r.value.page)
              && r.value.offset == Wrap((r.value.page - 1) * r.value.size)
              && (sizeParam == "" ==> r.value.size == DEFAULT_SIZE) && (pageParam == "" ==> r.value.page == 1)
    ensures r.Ok? && sizeParam != "" ==> Atoi(sizeParam) == Some(r.value.size)
    ensures r.Ok? && pageParam != "" ==> Atoi(pageParam) == Some(r.value.page)
    ensures r == Err(InvalidSize) <==> Refused(sizeParam)
    ensures r == Err(InvalidPage) <==> !Refused(sizeParam) && Refused(pageParam)
    ensures r == Parsed(sizeParam, pageParam)
  {
    var page, size := 1, DEFAULT_SIZE;
    if sizeParam != "" {
      var parsed := Atoi(sizeParam);
      if parsed.None? || parsed.value < 1 {
        return Err(InvalidSize);
      }
      size := parsed.value;
    }
    if pageParam != "" {
      var parsed := Atoi(pageParam);
      if parsed.None? || parsed.value < 1 {
        return Err(InvalidPage);
      }
      page := parsed.value;
    }
    return Ok(Request(size, page, Wrap((page - 1) * size)));
  }

  type Query = map<string, seq<string>>

  function Get(q: Query, key: string): string {
    if key in q && |q[key]| > 0 then q[key][0] else ""
  }

  /** What a request with this query asks for. */
  function Asked(q: Query): Result<Request, Error> {
    Parsed(Get(q, "size"), Get(q, "page"))
  }

  function Link(q: Query, size: int, page: int): Query {
    q["size" := [Itoa(size)]]["page" := [Itoa(page)]]
  }

  /** A link asks for its size and page, if they are valid, and leaves every other parameter as it was. */
  method PaginationLink(url: Query, size: int, page: int) returns (link: Query)
    ensures IsPositive(size) && IsPositive(page) ==> Asked(link) == Ok(Request(size, page, Wrap((page - 1) * size)))
    ensures forall key: string :: key != "size" && key != "page" ==> Get(link, key) == Get(url, key)
    ensures link == Link(url, size, page)
  {
    if IsPositive(size) && IsPositive(page) { LinkAsks(url, size, page); }
    var query := url;
    query := query["size" := [Itoa(size)]];
    query := query["page" := [Itoa(page)]];
    link := query;
  }

  datatype Links = Links(next: Option<Query>, prev: Option<Query>)

  function LinksOf(q: Query, size: int, page: int, count: int): Links {
    if count <= size then Links(None, None)
    else Links(if Wrap(page * size) < count then Some(Link(q, size, Wrap(page + 1))) else None,
               if page > 1 then Some(Link(q, size, Wrap(page - 1))) else None)
  }

  /**
   The links of `getPaginatedResponseDoc`, keyed "next" and "prev" there. While the page ends within 64 bits there is
   a next page exactly if records are left behind this one, and it begins with the first of them; there is a
   previous page exactly if this is not the first page, and not the only one.
   */
  method GetLinks(url: Query, size: int, page: int, count: int) returns (links: Links)
    ensures links.next.Some? <==> count > size && Wrap(page * size) < count
    ensures links.prev.Some? <==> count > size && page > 1
    ensures IsPositive(size) && IsPositive(page) && IsPositive(page * size) && IsInt(count) ==>
              && (links.next.Some? <==> page * size < count)
              && (links.next.Some? ==> Asked(links.next.value) == Ok(Request(size, page + 1, page * size)))
    ensures IsPositive(size) && IsPositive(page) && links.prev.Some? ==>
              Asked(links.prev.value) == Ok(Request(size, page - 1, Wrap((page - 2) * size)))
    ensures links == LinksOf(url, size, page, count)
  {
    PageIsPositive(size, page);
    links := Links(None, None);
    if count > size {
      if Wrap(page * size) < count {
        var next := PaginationLink(url, size, Wrap(page + 1));
        links := links.(next := Some(next));
      }
      if page > 1 {
        var prev := PaginationLink(url, size, Wrap(page - 1));
        links := links.(prev := Some(prev));
      }
    }
  }

  lemma PageIsPositive(size: int, page: int)
    ensures size >= 1 && page >= 1 ==> size <= page * size && page <= page * size
  {
    if size >= 1 && page >= 1 {
      Times(1, page, size);
      Times(page, page, size);
    }
  }

  /** A link asks for the page it was made for, and leaves every other parameter as it was. */
  lemma LinkAsks(q: Query, size: int, page: int)
    requires 1 <= size < TWO_63 && 1 <= page < TWO_63
    ensures Asked(Link(q, size, page)) == Ok(Request(size, page, Wrap((page - 1) * size)))
    ensures forall key: string :: key != "size" && key != "page" ==> Get(Link(q, size, page), key) == Get(q, key)
  {
    AtoiInverts(size);
    AtoiInverts(page);
  }

  /**
   Going to the next page and back asks for the page the client was on, if and only if that is not the last page
   number there is: from that one, `next` asks for a negative page, which is refused.
   */
  lemma PrevUndoesNext(q: Query, count: int)
    requires Asked(q).Ok?
    requires var r := Asked(q).value; LinksOf(q, r.size, r.page, count).next.Some?
    ensures var r := Asked(q).value;
            var next := LinksOf(q, r.size, r.page, count).next.value;
            && (r.page < TWO_63 - 1 <==> Asked(next).Ok?)
            && (r.page == TWO_63 - 1 ==> Asked(next) == Err(InvalidPage))
            && (r.page < TWO_63 - 1 ==>
                  && Asked(next) == Ok(Request(r.size, r.page + 1, Wrap(r.page * r.size)))
                  && var prev := LinksOf(next, r.size, r.page + 1, count).prev;
                     prev.Some? && Asked(prev.value) == Asked(q))
  {
    AskedIsPositive(q);
    var r := Asked(q).value;
    NextAsks(q, r.size, r.page, count);
    if r.page < TWO_63 - 1 { ThereAndBack(q, r, count); }
  }

  lemma NextAsks(q: Query, size: int, page: int, count: int)
    requires IsPositive(size) && IsPositive(page) && count > size && Wrap(page * size) < count
    ensures LinksOf(q, size, page, count).next.Some?
    ensures var next := LinksOf(q, size, page, count).next.value;
            && (page < TWO_63 - 1 ==> next == Link(q, size, page + 1))
            && (page == TWO_63 - 1 ==> Asked(next) == Err(InvalidPage))
  {
    if page == TWO_63 - 1 { NegativePage(q, size); }
  }

  lemma ThereAndBack(q: Query, r: Request, count: int)
    requires IsPositive(r.size) && IsPositive(r.page) && IsPositive(r.page + 1) && count > r.size
    requires r.offset == Wrap((r.page - 1) * r.size)
    ensures var next := Link(q, r.size, r.page + 1);
            && Asked(next) == Ok(Request(r.size, r.page + 1, Wrap(r.page * r.size)))
            && var prev := LinksOf(next, r.size, r.page + 1, count).prev;
               prev.Some? && Asked(prev.value) == Ok(r)
  {
    LinkAsks(q, r.size, r.page + 1);
    var next := Link(q, r.size, r.page + 1);
    LinkAsks(next, r.size, r.page);
    assert LinksOf(next, r.size, r.page + 1, count).prev == Some(Link(next, r.size, r.page));
  }

  lemma NegativePage(q: Query, size: int)
    requires IsPositive(size)
    ensures Asked(Link(q, size, -TWO_63)) == Err(InvalidPage)
  {
    AtoiInverts(size);
    AtoiInverts(-TWO_63);
  }

  /** Such a `next` is offered: the end of page 2^63-1, with 2 records a page, wraps to a negative number. */
  lemma LastPageHasNext(q: Query)
    requires q == Link(map[], 2, TWO_63 - 1)
    ensures Asked(q).Ok? && Asked(q).value.page == TWO_63 - 1
    ensures LinksOf(q, 2, TWO_63 - 1, 3).next.Some?
    ensures Asked(LinksOf(q, 2, TWO_63 - 1, 3).next.value) == Err(InvalidPage)
  {
    LinkAsks(map[], 2, TWO_63 - 1);
    PrevUndoesNext(q, 3);
  }

  lemma AskedIsPositive(q: Query)
    requires Asked(q).Ok?
    ensures var r := Asked(q).value;
            1 <= r.size < TWO_63 && 1 <= r.page < TWO_63 && r.offset == Wrap((r.page - 1) * r.size)
  {
  }

  // ----- following the links -----

  /** The client asks for page 1 of `count` records, then follows `next`, any number of times. */
  predicate IsWalk(count: int, size: int, walk: seq<Query>) {
    && |walk| > 0
    && (forall q <- walk :: Asked(q).Ok? && Asked(q).value.size == size)
    && Asked(walk[0]).value.page == 1
    && forall i: nat :: i < |walk| - 1 ==> Follows(count, walk[i], walk[i + 1])
  }

  predicate Follows(count: int, q: Query, next: Query) {
    Asked(q).Ok? && LinksOf(q, Asked(q).value.size, Asked(q).value.page, count).next == Some(next)
  }

  predicate HasNext(count: int, q: Query) {
    Asked(q).Ok? && LinksOf(q, Asked(q).value.size, Asked(q).value.page, count).next.Some?
  }

  /** The records from `lo` up to `hi`. */
  function Records(lo: int, hi: int): seq<int> {
    if lo < hi then seq(hi - lo, i requires 0 <= i => lo + i) else []
  }

  /** The records a page shows: at most `size` of them, from the offset on. */
  function Window(count: int, r: Request): seq<int> {
    if r.offset < 0 then [] else Records(r.offset, if r.offset + r.size < count then r.offset + r.size else count)
  }

  function Seen(count: int, walk: seq<Query>): seq<int> {
    if |walk| == 0 then []
    else
      var q := walk[|walk| - 1];
      Seen(count, walk[..|walk| - 1]) + if Asked(q).Ok? then Window(count, Asked(q).value) else []
  }

  /** Where the last page ends. */
  function LastEnd(count: int, size: int): int
    requires size >= 1
  {
    (count + size - 1) / size * size
  }

  /** No page ends beyond the range of 64 bits. */
  predicate Fits(count: int, size: int)
    requires size >= 1
  {
    count <= size || LastEnd(count, size) < TWO_63
  }

  lemma LastEndIsTight(count: int, size: int)
    requires size >= 1
    ensures count <= LastEnd(count, size) < count + size
  {
  }

  /** A page that begins before the end of the records ends by the end of the last page. */
  lemma PageEnds(count: int, size: int, page: int)
    requires size >= 1 && page >= 1 && (page - 1) * size < count
    ensures page * size <= LastEnd(count, size)
  {
    var last := (count + size - 1) / size;
    if page > last {
      LastEndIsTight(count, size);
      Times(last, page - 1, size);
    } else {
      Times(page, last, size);
    }
  }

  lemma Times(a: int, b: int, size: int)
    requires a <= b && size >= 1
    ensures a * size <= b * size
    ensures a >= 1 ==> a <= a * size
  {
    assert (b - a) * size >= 0;
    if a >= 1 { assert a * (size - 1) >= 0; }
  }

  /** The page after one that begins before the end of the records. */
  predicate InRange(count: int, size: int, page: int) {
    page == 1 || (page > 1 && (page - 1) * size < count)
  }

  lemma NextExists(count: int, q: Query)
    requires 0 <= count < TWO_63 && Asked(q).Ok?
    requires var r := Asked(q).value; InRange(count, r.size, r.page) && (count <= r.size || r.page * r.size < TWO_63)
    ensures var r := Asked(q).value; HasNext(count, q) <==> r.page * r.size < count
    ensures var r := Asked(q).value; HasNext(count, q) ==>
              && Follows(count, q, Link(q, r.size, r.page + 1))
              && Asked(Link(q, r.size, r.page + 1)) == Ok(Request(r.size, r.page + 1, r.page * r.size))
  {
    AskedIsPositive(q);
    var r := Asked(q).value;
    NextFits(count, r.size, r.page);
    if HasNext(count, q) { LinkAsks(q, r.size, r.page + 1); }
  }

  lemma NextFits(count: int, size: int, page: int)
    requires 0 <= count < TWO_63 && 1 <= size < TWO_63 && 1 <= page < TWO_63
    requires InRange(count, size, page) && (count <= size || page * size < TWO_63)
    ensures page * size < count <==> count > size && Wrap(page * size) < count
    ensures page * size < count ==> page + 1 < TWO_63 && Wrap(page * size) == page * size
  {
    Times(1, page, size);
    Times(page, page, size);
    PageIsPositive(size, page);
  }

  lemma LastFits(count: int, size: int, page: int)
    requires 1 <= size < TWO_63 && 0 <= count < TWO_63 && Fits(count, size) && InRange(count, size, page)
    ensures count <= size || page * size < TWO_63
  {
    if count > size { PageEnds(count, size, page); }
  }

  lemma WalkButLast(count: int, size: int, walk: seq<Query>)
    requires IsWalk(count, size, walk) && |walk| > 1
    ensures IsWalk(count, size, walk[..|walk| - 1])
    ensures Follows(count, walk[|walk| - 2], walk[|walk| - 1])
  {
    var before := walk[..|walk| - 1];
    forall i: nat | i < |before| - 1 ensures Follows(count, before[i], before[i + 1]) {
      assert Follows(count, walk[i], walk[i + 1]);
    }
    assert Follows(count, walk[|walk| - 2], walk[|walk| - 2 + 1]);
  }

  lemma {:induction false} WalkPages(count: int, size: int, walk: seq<Query>)
    requires 0 <= count < TWO_63 && 1 <= size < TWO_63 && Fits(count, size) && IsWalk(count, size, walk)
    ensures Asked(walk[|walk| - 1]) == Ok(Request(size, |walk|, (|walk| - 1) * size))
    ensures InRange(count, size, |walk|)
  {
    var n := |walk|;
    AskedIsPositive(walk[n - 1]);
    if n > 1 {
      var before := walk[..n - 1];
      WalkButLast(count, size, walk);
      WalkPages(count, size, before);
      assert before[n - 2] == walk[n - 2];
      LastFits(count, size, n - 1);
      NextExists(count, walk[n - 2]);
    }
  }

  /** How many records the first `n` pages hold. */
  function UpTo(count: int, size: int, n: int): int {
    if n * size < count then n * size else count
  }

  /**
   If no page ends beyond 64 bits, the n-th request of a walk asks for page n, and together the pages
   have shown each record once, in order, from the first record up to where the page ends.
   */
  lemma {:induction false} WalkShows(count: int, size: int, walk: seq<Query>)
    requires 0 <= count < TWO_63 && 1 <= size < TWO_63 && Fits(count, size) && IsWalk(count, size, walk)
    ensures Asked(walk[|walk| - 1]) == Ok(Request(size, |walk|, (|walk| - 1) * size))
    ensures Seen(count, walk) == Records(0, UpTo(count, size, |walk|))
  {
    var n := |walk|;
    WalkPages(count, size, walk);
    if n == 1 {
      assert Seen(count, walk[..0]) == [];
    } else {
      WalkButLast(count, size, walk);
      WalkShows(count, size, walk[..n - 1]);
    }
    OnePageMore(count, size, n);
  }

  lemma OnePageMore(count: int, size: int, n: nat)
    requires n >= 1 && size >= 1 && count >= 0 && InRange(count, size, n)
    ensures Records(0, UpTo(count, size, n - 1)) + Window(count, Request(size, n, (n - 1) * size))
            == Records(0, UpTo(count, size, n))
  {
    Times(0, n - 1, size);
    RecordsJoin((n - 1) * size, UpTo(count, size, n));
  }

  lemma RecordsJoin(mid: int, hi: int)
    requires 0 <= mid <= hi
    ensures Records(0, mid) + Records(mid, hi) == Records(0, hi)
  {
  }

  lemma NextIff(count: int, size: int, walk: seq<Query>)
    requires 0 <= count < TWO_63 && 1 <= size < TWO_63 && Fits(count, size) && IsWalk(count, size, walk)
    ensures HasNext(count, walk[|walk| - 1]) <==> |walk| * size < count
  {
    WalkPages(count, size, walk);
    LastFits(count, size, |walk|);
    NextExists(count, walk[|walk| - 1]);
  }

  lemma AllRecordsIff(count: int, size: int, n: nat)
    requires count >= 0 && size >= 1
    ensures Records(0, UpTo(count, size, n)) == Records(0, count) <==> n * size >= count
  {
    Times(0, n, size);
    if n * size < count { assert |Records(0, UpTo(count, size, n))| < |Records(0, count)|; }
  }

  /** A walk has shown all records, each once and in order, exactly when its last page has no `next`. */
  lemma EndedWalkShowsAll(count: int, size: int, walk: seq<Query>)
    requires 0 <= count < TWO_63 && 1 <= size < TWO_63 && Fits(count, size) && IsWalk(count, size, walk)
    ensures !HasNext(count, walk[|walk| - 1]) <==> Seen(count, walk) == Records(0, count)
  {
    WalkShows(count, size, walk);
    NextIff(count, size, walk);
    AllRecordsIff(count, size, |walk|);
  }

  lemma WalkExtends(count: int, size: int, walk: seq<Query>, q: Query)
    requires IsWalk(count, size, walk) && Follows(count, walk[|walk| - 1], q)
    requires Asked(q).Ok? && Asked(q).value.size == size
    ensures IsWalk(count, size, walk + [q])
  {
    var walk' := walk + [q];
    forall i: nat | i < |walk'| - 1 ensures Follows(count, walk'[i], walk'[i + 1]) {
      if i < |walk| - 1 { assert Follows(count, walk[i], walk[i + 1]); }
    }
  }

  /** From any walk the client comes to page `n` by following `next`, if page `n` begins before the end. */
  lemma {:induction false} WalkTo(count: int, size: int, start: Query, n: nat) returns (walk: seq<Query>)
    requires 0 <= count < TWO_63 && Asked(start).Ok? && Asked(start).value == Request(size, 1, 0)
    requires n >= 1 && InRange(count, size, n) && (n > 1 ==> count > size)
    ensures IsWalk(count, size, walk) && |walk| == n && walk[0] == start
    ensures Asked(walk[n - 1]) == Ok(Request(size, n, (n - 1) * size))
  {
    AskedIsPositive(start);
    if n == 1 {
      walk := [start];
    } else {
      Times(n - 2, n - 1, size);
      walk := WalkTo(count, size, start, n - 1);
      var last := walk[n - 2];
      NextExists(count, last);
      var next := Link(last, size, n);
      WalkExtends(count, size, walk, next);
      walk := walk + [next];
    }
  }

  /** Following `next` ends: there is a walk to a page without it, on which all records have been shown. */
  lemma WalkEnds(count: int, size: int, start: Query) returns (walk: seq<Query>)
    requires 0 <= count < TWO_63 && Asked(start).Ok? && Asked(start).value == Request(size, 1, 0)
    requires Fits(count, size)
    ensures IsWalk(count, size, walk) && walk[0] == start
    ensures !HasNext(count, walk[|walk| - 1]) && Seen(count, walk) == Records(0, count)
  {
    AskedIsPositive(start);
    var n: nat := if count <= size then 1 else (count + size - 1) / size;
    LastEndIsTight(count, size);
    if count > size { Pages(count, size); }
    walk := WalkTo(count, size, start, n);
    NextIff(count, size, walk);
    EndedWalkShowsAll(count, size, walk);
  }

  lemma Pages(count: int, size: int)
    requires count > size >= 1
    ensures var n := (count + size - 1) / size; n > 1 && (n - 1) * size < count <= n * size
  {
    LastEndIsTight(count, size);
    var n := (count + size - 1) / size;
    if n <= 1 { Times(n, 1, size); }
  }

  /** Every walk offers `next` only while there are records it has not shown. */
  ghost predicate EndsInTime(count: int, size: int) {
    forall walk: seq<Query> :: IsWalk(count, size, walk) && HasNext(count, walk[|walk| - 1]) ==> |walk| * size < count
  }

  lemma Overrun(count: int, size: int) returns (walk: seq<Query>)
    requires 0 <= count < TWO_63 && 1 <= size < TWO_63 && !Fits(count, size)
    ensures IsWalk(count, size, walk) && HasNext(count, walk[|walk| - 1]) && |walk| * size >= count
  {
    var n := (count + size - 1) / size;
    Pages(count, size);
    LastEndIsTight(count, size);
    LinkAsks(map[], size, 1);
    walk := WalkTo(count, size, Link(map[], size, 1), n);
    WrappedOffers(count, walk[n - 1]);
  }

  lemma WrappedOffers(count: int, q: Query)
    requires 0 <= count && Asked(q).Ok? && count > Asked(q).value.size
    requires TWO_63 <= Asked(q).value.page * Asked(q).value.size < 2 * TWO_63
    ensures HasNext(count, q)
  {
  }

  /**
   `next` is offered exactly as long as it should be if and only if the last page ends within 64 bits. If
   it does not, the end of the last page wraps to a negative number, which is less than any count.
   */
  lemma EndsInTimeIff(count: int, size: int)
    requires 0 <= count < TWO_63 && 1 <= size < TWO_63
    ensures EndsInTime(count, size) <==> Fits(count, size)
  {
    if Fits(count, size) {
      forall walk: seq<Query> | IsWalk(count, size, walk) && HasNext(count, walk[|walk| - 1])
        ensures |walk| * size < count
      {
        NextIff(count, size, walk);
      }
    } else {
      var walk := Overrun(count, size);
    }
  }
}
