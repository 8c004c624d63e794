/**
 The order Go uses to compare strings, and the sequence sort.Strings and
 sort.Slice make of a set of ids.
 */
module IDOrder {
  /** Lexicographic order on strings. UTF-8 bytes and code points order the same way. */
  predicate Less(a: string, b: string) {
    b != "" && (a == "" || a[0] < b[0] || (a[0] == b[0] && Less(a[1..], b[1..])))
  }

  lemma {:induction false} LessIrreflexive(a: string)
    ensures !Less(a, a)
  {
    if a != "" {
      LessIrreflexive(a[1..]);
    }
  }

  lemma {:induction false} LessTransitive(a: string, b: string, c: string)
    requires Less(a, b) && Less(b, c)
    ensures Less(a, c)
  {
    if a != "" && a[0] == b[0] == c[0] {
      LessTransitive(a[1..], b[1..], c[1..]);
    }
  }

  lemma {:induction false} LessConnected(a: string, b: string)
    ensures Less(a, b) || a == b || Less(b, a)
  {
    if a != "" && b != "" && a[0] == b[0] {
      LessConnected(a[1..], b[1..]);
      assert a == [a[0]] + a[1..] && b == [b[0]] + b[1..];
    }
  }

  /** The first character on which two strings differ decides; a proper prefix comes first. */
  lemma {:induction false} LessDecided(common: string, a: string, b: string)
    requires a == "" || b == "" || a[0] != b[0]
    ensures Less(common + a, common + b) <==> b != "" && (a == "" || a[0] < b[0])
  {
    if common == "" {
      assert common + a == a && common + b == b;
    } else {
      assert (common + a)[1..] == common[1..] + a && (common + b)[1..] == common[1..] + b;
      LessDecided(common[1..], a, b);
    }
  }

  /** Strictly ascending by key. */
  ghost predicate AscendingBy<T(!new)>(s: seq<T>, key: T -> string) {
    forall i, j :: 0 <= i < j < |s| ==> Less(key(s[i]), key(s[j]))
  }

  ghost predicate DistinctBy<T(!new)>(s: seq<T>, key: T -> string) {
    forall i, j :: 0 <= i < j < |s| ==> key(s[i]) != key(s[j])
  }

  ghost predicate Ascending(s: seq<string>) {
    forall i, j :: 0 <= i < j < |s| ==> Less(s[i], s[j])
  }

  /** A finite non-empty set of ids has a least one. */
  lemma {:induction false} LeastID(ids: set<string>) returns (least: string)
    requires ids != {}
    ensures least in ids && forall id | id in ids :: id == least || Less(least, id)
    decreases ids
  {
    var id :| id in ids;
    if ids == {id} {
      least := id;
    } else {
      least := LeastID(ids - {id});
      LessConnected(id, least);
      if Less(id, least) {
        forall other | other in ids
          ensures other == id || Less(id, other)
        {
          if other != id && other != least {
            LessTransitive(id, least, other);
          }
        }
        least := id;
      }
    }
  }

  /** The ids of a set in ascending order. */
  ghost function SortedIDs(ids: set<string>): (r: seq<string>)
    ensures forall id :: id in r <==> id in ids
    ensures Ascending(r)
  {
    if ids == {} then [] else
      assert exists id :: id in ids && (forall other | other in ids :: other == id || Less(id, other)) by {
        var least := LeastID(ids);
      }
      var least :| least in ids && forall other | other in ids :: other == least || Less(least, other);
      [least] + SortedIDs(ids - {least})
  }

  /** An ascending sequence is determined by its elements. */
  lemma {:induction false} AscendingUnique(a: seq<string>, b: seq<string>)
    requires Ascending(a) && Ascending(b)
    requires forall id :: id in a <==> id in b
    ensures a == b
  {
    assert |a| > 0 ==> a[0] in b;
    assert |b| > 0 ==> b[0] in a;
    if |a| > 0 && |b| > 0 {
      assert a[0] in b;
      assert b[0] in a;
      AscendingHead(a, b[0]);
      AscendingHead(b, a[0]);
      if a[0] != b[0] {
        LessTransitive(a[0], b[0], a[0]);
        LessIrreflexive(a[0]);
      }
      forall id
        ensures id in a[1..] <==> id in b[1..]
      {
        LessIrreflexive(a[0]);
        assert id in a <==> id == a[0] || id in a[1..];
        assert id in b <==> id == b[0] || id in b[1..];
      }
      AscendingUnique(a[1..], b[1..]);
      assert a == [a[0]] + a[1..] && b == [b[0]] + b[1..];
    }
  }

  lemma AscendingHead(s: seq<string>, id: string)
    requires Ascending(s) && id in s
    ensures id == s[0] || Less(s[0], id)
  {
    var i :| 0 <= i < |s| && s[i] == id;
  }

  /** Any ascending listing of a set is its sorted sequence. */
  lemma SortedIDsUnique(s: seq<string>, ids: set<string>)
    requires Ascending(s)
    requires forall id :: id in s <==> id in ids
    ensures s == SortedIDs(ids)
  {
    AscendingUnique(s, SortedIDs(ids));
  }

  /** The place of x in an ascending sequence: everything before it is less. */
  method FindPlace<T(!new)>(r: seq<T>, key: T -> string, id: string) returns (n: nat)
    ensures n <= |r|
    ensures forall j :: 0 <= j < n ==> Less(key(r[j]), id)
    ensures n < |r| ==> !Less(key(r[n]), id)
  {
    n := 0;
    while n < |r| && Less(key(r[n]), id)
      invariant n <= |r|
      invariant forall j :: 0 <= j < n ==> Less(key(r[j]), id)
    {
      n := n + 1;
    }
  }

  lemma InsertKeepsAscending<T(!new)>(r: seq<T>, key: T -> string, x: T, n: nat)
    requires n <= |r| && AscendingBy(r, key)
    requires forall j :: 0 <= j < n ==> Less(key(r[j]), key(x))
    requires n < |r| ==> !Less(key(r[n]), key(x))
    requires forall j :: 0 <= j < |r| ==> key(r[j]) != key(x)
    ensures AscendingBy(r[..n] + [x] + r[n..], key)
  {
    forall j | n <= j < |r|
      ensures Less(key(x), key(r[j]))
    {
      LessConnected(key(r[n]), key(x));
      if n < j {
        LessTransitive(key(x), key(r[n]), key(r[j]));
      }
    }
  }

  /** A prefix of a sequence with distinct keys shares no key with the next element. */
  lemma PrefixAvoidsNext<T(!new)>(s: seq<T>, key: T -> string, i: nat, r: seq<T>)
    requires i < |s| && DistinctBy(s, key) && multiset(r) == multiset(s[..i])
    ensures forall j :: 0 <= j < |r| ==> key(r[j]) != key(s[i])
  {
    forall j | 0 <= j < |r|
      ensures key(r[j]) != key(s[i])
    {
      assert r[j] in multiset(s[..i]);
    }
  }

  /** Insert x into an ascending sequence that does not hold its key. */
  method Insert<T(!new)>(r: seq<T>, key: T -> string, x: T) returns (out: seq<T>)
    ensures multiset(out) == multiset(r) + multiset{x}
    ensures AscendingBy(r, key) && (forall j :: 0 <= j < |r| ==> key(r[j]) != key(x)) ==> AscendingBy(out, key)
  {
    var n := FindPlace(r, key, key(x));
    if AscendingBy(r, key) && forall j :: 0 <= j < |r| ==> key(r[j]) != key(x) {
      InsertKeepsAscending(r, key, x, n);
    }
    assert r == r[..n] + r[n..];
    out := r[..n] + [x] + r[n..];
  }

  /**
   The result of sorting by key. Callers see only this contract, which every
   sorting algorithm meets, the unstable one of sort.Slice included.
   */
  method SortBy<T(!new)>(s: seq<T>, key: T -> string) returns (r: seq<T>)
    ensures multiset(r) == multiset(s)
    ensures DistinctBy(s, key) ==> AscendingBy(r, key)
  {
    r := [];
    for i := 0 to |s|
      invariant multiset(r) == multiset(s[..i])
      invariant DistinctBy(s, key) ==> AscendingBy(r, key)
    {
      if DistinctBy(s, key) {
        PrefixAvoidsNext(s, key, i, r);
      }
      assert s[..i + 1] == s[..i] + [s[i]];
      r := Insert(r, key, s[i]);
    }
    assert s[..|s|] == s;
  }

  lemma SameElements<T>(r: seq<T>, s: seq<T>)
    requires multiset(r) == multiset(s)
    ensures forall x :: x in r <==> x in s
  {
    forall x
      ensures x in r <==> x in s
    {
      assert x in r <==> x in multiset(r);
      assert x in s <==> x in multiset(s);
    }
  }
}
