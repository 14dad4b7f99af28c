/** Go's order on strings, and the one ascending enumeration of a set of them. */
module StringOrder {
  /** Go's order on strings. */
  predicate Less(a: string, b: string) {
    if |b| == 0 then false
    else if |a| == 0 then true
    else a[0] < b[0] || (a[0] == b[0] && Less(a[1..], b[1..]))
  }

  lemma Irreflexive(a: string)
    ensures !Less(a, a)
  {
  }

  lemma Transitive(a: string, b: string, c: string)
    requires Less(a, b) && Less(b, c)
    ensures Less(a, c)
  {
  }

  lemma Total(a: string, b: string)
    ensures a == b || Less(a, b) || Less(b, a)
  {
    if |a| > 0 && |b| > 0 && a[0] == b[0] {
      Total(a[1..], b[1..]);
      assert a == [a[0]] + a[1..] && b == [b[0]] + b[1..];
    }
  }

  ghost predicate Ascending(keys: seq<string>) {
    forall i: nat, j: nat :: i < j < |keys| ==> Less(keys[i], keys[j])
  }

  predicate IsLeast(m: string, s: set<string>) {
    m in s && forall k <- s :: k == m || Less(m, k)
  }

  lemma LeastExists(s: set<string>)
    requires s != {}
    ensures exists m: string :: IsLeast(m, s)
  {
    var k :| k in s;
    if s == {k} {
      assert IsLeast(k, s);
    } else {
      LeastExists(s - {k});
      var m :| IsLeast(m, s - {k});
      Total(k, m);
      if Less(m, k) {
        assert IsLeast(m, s);
      } else {
        forall x <- s ensures x == k || Less(k, x) {
          if x != k && x != m { Transitive(k, m, x); }
        }
        assert IsLeast(k, s);
      }
    }
  }

  /** The keys of a map in ascending order. */
  ghost function SortedKeys(s: set<string>): (keys: seq<string>)
    ensures forall k :: k in keys <==> k in s
  {
    if s == {} then []
    else
      LeastExists(s);
      var m: string :| IsLeast(m, s);
      [m] + SortedKeys(s - {m})
  }

  lemma {:induction false} SortedKeysAscend(s: set<string>)
    ensures Ascending(SortedKeys(s))
  {
    if s == {} {
    } else {
      LeastExists(s);
      var keys := SortedKeys(s);
      var m := keys[0];
      assert IsLeast(m, s) && keys[1..] == SortedKeys(s - {m});
      SortedKeysAscend(s - {m});
      forall i: nat, j: nat | i < j < |keys| ensures Less(keys[i], keys[j]) {
        if i == 0 {
          assert keys[j] == keys[1..][j - 1] && keys[j] in SortedKeys(s - {m});
        } else {
          assert Less(keys[1..][i - 1], keys[1..][j - 1]);
        }
      }
    }
  }

  lemma NoElements(a: seq<string>)
    ensures a == [] <==> forall k: string :: k !in a
  {
    if a != [] { assert a[0] in a; }
  }

  /** There is one ascending enumeration of a set, so the order of iteration cannot show. */
  lemma {:induction false} AscendingIsUnique(a: seq<string>, b: seq<string>)
    requires Ascending(a) && Ascending(b)
    requires forall k :: k in a <==> k in b
    ensures a == b
  {
    if |a| == 0 || |b| == 0 {
      NoElements(a);
      NoElements(b);
    } else {
      assert a[0] in b;
      assert b[0] in a;
      FirstIsLeast(a, b[0]);
      FirstIsLeast(b, a[0]);
      if a[0] != b[0] {
        Transitive(a[0], b[0], a[0]);
        Irreflexive(a[0]);
      }
      TailAscends(a);
      TailAscends(b);
      forall k ensures k in a[1..] <==> k in b[1..] { SameTail(a, b, k); }
      AscendingIsUnique(a[1..], b[1..]);
      assert a == [a[0]] + a[1..] && b == [b[0]] + b[1..];
    }
  }

  lemma TailAscends(a: seq<string>)
    requires Ascending(a) && |a| > 0
    ensures Ascending(a[1..])
  {
    var tail := a[1..];
    forall i: nat, j: nat | i < j < |tail| ensures Less(tail[i], tail[j]) { assert Less(a[i + 1], a[j + 1]); }
  }

  lemma SameTail(a: seq<string>, b: seq<string>, k: string)
    requires Ascending(a) && Ascending(b) && |a| > 0 && |b| > 0 && a[0] == b[0] && (k in a <==> k in b)
    ensures k in a[1..] <==> k in b[1..]
  {
    if k in a[1..] { NotFirstAgain(a, k); }
    if k in b[1..] { NotFirstAgain(b, k); }
  }

  lemma FirstIsLeast(a: seq<string>, k: string)
    requires Ascending(a) && k in a
    ensures a[0] == k || Less(a[0], k)
  {
  }

  lemma NotFirstAgain(a: seq<string>, k: string)
    requires Ascending(a) && |a| > 0 && k in a[1..]
    ensures k in a && k != a[0]
  {
    var i: nat :| i < |a[1..]| && a[1..][i] == k;
    assert a[i + 1] == k && Less(a[0], a[i + 1]);
    Irreflexive(k);
  }

  /** Puts `k` into its place in an ascending sequence that does not have it. */
  method Insert(keys: seq<string>, k: string) returns (r: seq<string>)
    requires Ascending(keys) && k !in keys
    ensures Ascending(r) && forall x :: x in r <==> x in keys || x == k
  {
    var i := 0;
    while i < |keys| && Less(keys[i], k)
      invariant i <= |keys|
      invariant forall j: nat :: j < i ==> Less(keys[j], k)
    {
      i := i + 1;
    }
    forall j: nat | i <= j < |keys| ensures Less(k, keys[j]) {
      Total(keys[i], k);
      if j > i { Transitive(k, keys[i], keys[j]); }
    }
    r := keys[..i] + [k] + keys[i..];
    assert forall x :: x in keys <==> x in keys[..i] || x in keys[i..];
  }

  /** `sort.Strings` on keys without repetitions. */
  method SortStrings(keys: seq<string>) returns (r: seq<string>)
    requires forall i: nat, j: nat :: i < j < |keys| ==> keys[i] != keys[j]
    ensures Ascending(r) && forall x :: x in r <==> x in keys
  {
    r := [];
    for i := 0 to |keys|
      invariant Ascending(r) && forall x :: x in r <==> x in keys[..i]
    {
      assert keys[..i + 1] == keys[..i] + [keys[i]];
      r := Insert(r, keys[i]);
    }
    assert keys[..|keys|] == keys;
  }
}
