/** Cleaned absolute paths as lists of components, and what the string tests on them mean. */
module Paths {
  import opened Bytes
  import opened ByteStrings
  import opened Common

  type Path = seq<Name>

  const SLASH: byte := 47

  predicate Clean(p: Path) {
    forall i :: 0 <= i < |p| ==> p[i] != [] && SLASH !in p[i]
  }

  function Spell(p: Path): Name {
    if p == [] then [] else [SLASH] + p[0] + Spell(p[1..])
  }

  /** The spelling of a path as fsmeta.Normalize leaves it. */
  function Text(p: Path): Name {
    if p == [] then [SLASH] else Spell(p)
  }

  lemma {:induction false} FirstSlash(a: Name, x: Name, b: Name, y: Name)
    requires SLASH !in a && SLASH !in b && (y == [] || y[0] == SLASH)
    ensures a + [SLASH] + x <= b + y <==> a == b && [SLASH] + x <= y
  {
    var l, r := a + [SLASH] + x, b + y;
    if a == b {
      assert l == a + ([SLASH] + x);
      assert forall i :: 0 <= i < 1 + |x| && i < |y| ==> l[|a| + i] == ([SLASH] + x)[i] && r[|a| + i] == y[i];
    } else if |a| < |b| {
      assert r[|a|] == b[|a|] && l[|a|] == SLASH && b[|a|] in b;
    } else if |b| < |a| {
      assert l[|b|] == a[|b|] && a[|b|] in a;
      assert y != [] ==> r[|b|] == y[0];
    } else {
      assert l[..|a|] == a && r[..|a|] == b;
    }
  }

  /** What follows the first component of a spelling and a final slash. */
  lemma {:induction false} SpellHead(t: Path) returns (x: Name)
    requires t != []
    ensures Spell(t[1..]) + [SLASH] == [SLASH] + x
    ensures Spell(t) + [SLASH] == [SLASH] + (t[0] + [SLASH] + x)
  {
    var rest := Spell(t[1..]);
    x := if |t| == 1 then [] else (rest + [SLASH])[1..];
    assert |t| > 1 ==> rest[0] == SLASH;
    assert rest + [SLASH] == [SLASH] + x;
    Assoc([SLASH] + t[0], rest, [SLASH]);
    Assoc([SLASH] + t[0], [SLASH], x);
    Assoc([SLASH], t[0], [SLASH]);
    Assoc([SLASH], t[0] + [SLASH], x);
  }

  lemma {:induction false} PrefixHead(t: Path, k: Path)
    requires t != [] && k != []
    ensures t < k <==> t[0] == k[0] && t[1..] < k[1..]
  {
    assert t == [t[0]] + t[1..] && k == [k[0]] + k[1..];
  }

  lemma {:induction false} Cancel(c: byte, x: Name, y: Name)
    ensures [c] + x <= [c] + y <==> x <= y
  {
    assert ([c] + x)[1..] == x && ([c] + y)[1..] == y;
  }

  lemma {:induction false} SpellPrefix(t: Path, k: Path)
    requires Clean(t) && Clean(k)
    ensures Spell(t) + [SLASH] <= Spell(k) <==> t < k
  {
    if t == [] {
      assert k != [] ==> Spell(k)[0] == SLASH;
    } else if k != [] {
      SpellPrefix(t[1..], k[1..]);
      var x := SpellHead(t);
      Assoc([SLASH], k[0], Spell(k[1..]));
      Cancel(SLASH, t[0] + [SLASH] + x, k[0] + Spell(k[1..]));
      FirstSlash(t[0], x, k[0], Spell(k[1..]));
      PrefixHead(t, k);
    }
  }

  /**
    The string test of removeMergedPath and of opaque markers, "key starts with target and a slash",
    holds exactly for the paths below the target, but for no path when the target is the root.
   */
  lemma {:induction false} PrefixTest(target: Path, key: Path)
    requires Clean(target) && Clean(key)
    ensures Text(target) + [SLASH] <= Text(key) <==> target != [] && target < key
  {
    if target != [] {
      SpellPrefix(target, key);
      if key == [] { assert |Spell(target)| >= 1; }
    } else if key != [] {
      assert Text(key)[1] == key[0][0];
    }
  }

  lemma {:induction false} SpellAppend(p: Path, q: Path)
    ensures Spell(p + q) == Spell(p) + Spell(q)
  {
    if p == [] {
      assert p + q == q;
    } else {
      SpellAppend(p[1..], q);
      assert (p + q)[1..] == p[1..] + q;
      Assoc([SLASH] + p[0], Spell(p[1..]), Spell(q));
    }
  }

  lemma {:induction false} TextInjective(p: Path, q: Path)
    requires Clean(p) && Clean(q)
    ensures Text(p) == Text(q) <==> p == q
  {
    if Text(p) == Text(q) && p != [] && q != [] {
      var x := [[1]];
      assert Clean(q + x) && Clean(p + x);
      SpellAppend(p, x);
      SpellAppend(q, x);
      assert Spell(x) == [SLASH] + [1];
      SpellPrefix(p, q + x);
      SpellPrefix(q, p + x);
      assert p < q + x && q < p + x;
    } else if p != [] {
      assert |Spell(p)| >= 2;
    } else if q != [] {
      assert |Spell(q)| >= 2;
    }
  }

  lemma {:induction false} PrefixLess(a: Name, b: Name)
    requires b != []
    ensures Less(a, a + b)
  {
    if a != [] {
      PrefixLess(a[1..], b);
      assert (a + b)[1..] == a[1..] + b;
    }
  }

  /** Sorting by spelling puts every directory before what is below it. */
  lemma {:induction false} ParentFirst(p: Path, q: Path)
    requires p < q && Clean(q)
    ensures Less(Text(p), Text(q))
  {
    assert q == p + q[|p|..];
    SpellAppend(p, q[|p|..]);
    var tail := Spell(q[|p|..]);
    assert tail != [];
    if p == [] {
      assert |tail| >= 2 && tail == [SLASH] + tail[1..];
      PrefixLess([SLASH], tail[1..]);
    } else {
      PrefixLess(Spell(p), tail);
    }
  }
}
