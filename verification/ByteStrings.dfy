/** Byte strings in the order that sort.Strings puts them. */
module ByteStrings {
  import opened Bytes

  type Name = seq<byte>

  predicate Less(a: Name, b: Name) {
    b != [] && (a == [] || a[0] < b[0] || (a[0] == b[0] && Less(a[1..], b[1..])))
  }

  /** The names agree up to `i`, where `a` ends or has the smaller byte. */
  predicate DiffersAt(a: Name, b: Name, i: nat) {
    i <= |a| && i < |b| && a[..i] == b[..i] && (i == |a| || a[i] < b[i])
  }

  /** The order is decided at the first difference; a name comes before its extensions. */
  lemma {:induction false} LessAtDifference(a: Name, b: Name)
    ensures Less(a, b) <==> exists i: nat :: DiffersAt(a, b, i)
  {
    if a == [] || b == [] || a[0] != b[0] {
      assert DiffersAt(a, b, 0) <==> Less(a, b);
    } else {
      LessAtDifference(a[1..], b[1..]);
      forall i: nat ensures DiffersAt(a[1..], b[1..], i) <==> DiffersAt(a, b, i + 1) {
        if i < |a| && i < |b| { assert a[..i + 1] == [a[0]] + a[1..][..i] && b[..i + 1] == [b[0]] + b[1..][..i]; }
      }
      if i: nat :| DiffersAt(a, b, i) { assert DiffersAt(a[1..], b[1..], i - 1); }
    }
  }

  lemma {:induction false} LessTotal(a: Name, b: Name)
    ensures a == b || Less(a, b) || Less(b, a)
  {
    if a != [] && b != [] && a[0] == b[0] {
      LessTotal(a[1..], b[1..]);
      assert a == [a[0]] + a[1..] && b == [b[0]] + b[1..];
    }
  }

  lemma {:induction false} LessTransitive(a: Name, b: Name, c: Name)
    requires Less(a, b) && Less(b, c)
    ensures Less(a, c)
  {
    if a != [] && a[0] == b[0] == c[0] { LessTransitive(a[1..], b[1..], c[1..]); }
  }

  lemma {:induction false} LessIrreflexive(a: Name)
    ensures !Less(a, a)
  {
    if a != [] { LessIrreflexive(a[1..]); }
  }

  ghost predicate Ascending(keys: seq<Name>) {
    forall i, j {:trigger Less(keys[i], keys[j])} :: 0 <= i < j < |keys| ==> Less(keys[i], keys[j])
  }

  ghost function Elements(keys: seq<Name>): set<Name> { set k | k in keys }

  lemma {:induction false} NoElements(keys: seq<Name>)
    ensures Elements(keys) == {} <==> keys == []
  {
    if keys != [] { assert keys[0] in Elements(keys); }
  }

  lemma {:induction false} HeadIsLeast(a: seq<Name>, b: seq<Name>)
    requires Ascending(a) && Ascending(b) && a != [] && b != [] && a[0] in b && b[0] in a
    ensures a[0] == b[0]
  {
    if a[0] != b[0] {
      assert Less(b[0], a[0]) && Less(a[0], b[0]);
      LessTransitive(a[0], b[0], a[0]);
      LessIrreflexive(a[0]);
    }
  }

  lemma {:induction false} TailElements(a: seq<Name>, k: Name)
    requires Ascending(a) && a != []
    ensures k in Elements(a[1..]) <==> k in Elements(a) && k != a[0]
  {
    LessIrreflexive(a[0]);
    assert a == [a[0]] + a[1..];
  }

  /** A set of names has one ascending listing. */
  lemma {:induction false} AscendingUnique(a: seq<Name>, b: seq<Name>)
    requires Ascending(a) && Ascending(b) && Elements(a) == Elements(b)
    ensures a == b
  {
    if a == [] {
      NoElements(b);
    } else {
      assert a[0] in Elements(b);
      assert b != [] && b[0] in Elements(a);
      HeadIsLeast(a, b);
      forall k ensures k in Elements(a[1..]) <==> k in Elements(b[1..]) {
        TailElements(a, k);
        TailElements(b, k);
      }
      assert Elements(a[1..]) == Elements(b[1..]);
      AscendingUnique(a[1..], b[1..]);
    }
  }

  function Insert(k: Name, keys: seq<Name>): (r: seq<Name>) {
    if keys == [] then [k]
    else if Less(k, keys[0]) then [k] + keys
    else [keys[0]] + Insert(k, keys[1..])
  }

  lemma {:induction false} ElementsCons(k: Name, keys: seq<Name>)
    ensures Elements([k] + keys) == {k} + Elements(keys)
  {}

  lemma {:induction false} InsertElements(k: Name, keys: seq<Name>)
    ensures Elements(Insert(k, keys)) == Elements(keys) + {k}
  {
    if keys != [] {
      assert keys == [keys[0]] + keys[1..];
      InsertElements(k, keys[1..]);
      ElementsCons(keys[0], keys[1..]);
      ElementsCons(keys[0], Insert(k, keys[1..]));
    }
  }

  lemma {:induction false} InsertAscending(k: Name, keys: seq<Name>)
    requires Ascending(keys) && k !in Elements(keys)
    ensures Ascending(Insert(k, keys))
  {
    if keys != [] {
      if Less(k, keys[0]) {
        forall j | 0 < j < |keys| ensures Less(k, keys[j]) { LessTransitive(k, keys[0], keys[j]); }
      } else {
        LessTotal(keys[0], k);
        assert keys[0] in Elements(keys);
        var r := Insert(k, keys[1..]);
        InsertAscending(k, keys[1..]);
        InsertElements(k, keys[1..]);
        forall j | 0 <= j < |r| ensures Less(keys[0], r[j]) {
          assert r[j] in Elements(r);
        }
      }
    }
  }

  ghost predicate Distinct(keys: seq<Name>) {
    forall i, j :: 0 <= i < j < |keys| ==> keys[i] != keys[j]
  }

  /** sort.Strings. */
  function SortStrings(keys: seq<Name>): seq<Name> {
    if keys == [] then [] else Insert(keys[0], SortStrings(keys[1..]))
  }

  lemma {:induction false} SortStringsAscending(keys: seq<Name>)
    requires Distinct(keys)
    ensures Ascending(SortStrings(keys)) && Elements(SortStrings(keys)) == Elements(keys)
  {
    if keys != [] {
      SortStringsAscending(keys[1..]);
      assert keys == [keys[0]] + keys[1..];
      ElementsCons(keys[0], keys[1..]);
      InsertElements(keys[0], SortStrings(keys[1..]));
      InsertAscending(keys[0], SortStrings(keys[1..]));
    }
  }

  lemma {:induction false} ListingExists(s: set<Name>)
    ensures exists keys :: Ascending(keys) && Elements(keys) == s
  {
    if s == {} {
      assert Elements([]) == s;
    } else {
      var k :| k in s;
      ListingExists(s - {k});
      var keys :| Ascending(keys) && Elements(keys) == s - {k};
      InsertElements(k, keys);
      InsertAscending(k, keys);
      assert Elements(Insert(k, keys)) == s;
    }
  }

  /** The ascending listing of a set of names. */
  ghost function Sorted(s: set<Name>): (keys: seq<Name>)
    ensures Ascending(keys) && Elements(keys) == s
  {
    ListingExists(s);
    var keys :| Ascending(keys) && Elements(keys) == s;
    keys
  }

  /** Sorting distinct names gives the ascending listing of them. */
  lemma {:induction false} SortStringsSorts(keys: seq<Name>)
    requires Distinct(keys)
    ensures SortStrings(keys) == Sorted(Elements(keys))
  {
    SortStringsAscending(keys);
    AscendingUnique(SortStrings(keys), Sorted(Elements(keys)));
  }

  lemma {:induction false} SortedMembers(s: set<Name>)
    ensures forall k :: k in Sorted(s) <==> k in s
  {
    assert forall k :: k in Sorted(s) <==> k in Elements(Sorted(s));
  }

  /** The keys of a map in some order, as ranging over it yields them. */
  method CollectKeys<V>(m: map<Name, V>) returns (keys: seq<Name>)
    ensures Distinct(keys) && Elements(keys) == m.Keys
  {
    keys := [];
    var rest := m.Keys;
    while rest != {}
      invariant Distinct(keys) && Elements(keys) !! rest && Elements(keys) + rest == m.Keys
      decreases rest
    {
      var k :| k in rest;
      assert forall x :: x in keys ==> x in Elements(keys);
      assert Elements(keys + [k]) == Elements(keys) + {k};
      keys := keys + [k];
      rest := rest - {k};
    }
  }

  function Firsts<V>(es: seq<(Name, V)>): (names: seq<Name>)
    ensures |names| == |es| && forall i :: 0 <= i < |es| ==> names[i] == es[i].0
  {
    seq(|es|, i requires 0 <= i < |es| => es[i].0)
  }

  /** The entries of a map in ascending order of their names. */
  method SortedEntries<V>(m: map<Name, V>) returns (es: seq<(Name, V)>)
    ensures Ascending(Firsts(es)) && Elements(Firsts(es)) == m.Keys
    ensures forall e :: e in es ==> e.0 in m && e.1 == m[e.0]
  {
    var keys := CollectKeys(m);
    SortStringsAscending(keys);
    keys := SortStrings(keys);
    es := [];
    for i := 0 to |keys|
      invariant |es| == i && forall j :: 0 <= j < i ==> es[j].0 == keys[j]
      invariant forall e :: e in es ==> e.0 in m && e.1 == m[e.0]
    {
      assert keys[i] in Elements(keys);
      es := es + [(keys[i], m[keys[i]])];
    }
    assert Firsts(es) == keys;
  }
}
