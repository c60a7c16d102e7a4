/** Sorting strings byte by byte, and joining and splitting them. */
module Strings {
  predicate AtMost(a: string, b: string) {
    a == [] || (b != [] && (a[0] < b[0] || (a[0] == b[0] && AtMost(a[1..], b[1..]))))
  }

  lemma {:induction false} AtMostTotal(a: string, b: string)
    ensures AtMost(a, b) || AtMost(b, a)
  {
    if a != [] && b != [] && a[0] == b[0] {
      AtMostTotal(a[1..], b[1..]);
    }
  }

  lemma {:induction false} AtMostAntisymmetric(a: string, b: string)
    requires AtMost(a, b) && AtMost(b, a)
    ensures a == b
  {
    if a != [] {
      AtMostAntisymmetric(a[1..], b[1..]);
    }
  }

  lemma {:induction false} AtMostTransitive(a: string, b: string, c: string)
    requires AtMost(a, b) && AtMost(b, c)
    ensures AtMost(a, c)
  {
    if a != [] && a[0] == b[0] == c[0] {
      AtMostTransitive(a[1..], b[1..], c[1..]);
    }
  }

  // The texts agree before k, where a has the lower character.
  predicate LowerAt(a: string, b: string, k: int) {
    0 <= k < |a| && k < |b| && a[..k] == b[..k] && a[k] < b[k]
  }

  // The order is that of the bytes: a beginning comes before its continuations,
  // and otherwise the first difference decides.
  lemma {:induction false} AtMostExactly(a: string, b: string)
    ensures AtMost(a, b) <==> a <= b || exists k :: LowerAt(a, b, k)
  {
    if a != [] && b != [] {
      if a[0] == b[0] {
        AtMostExactly(a[1..], b[1..]);
        SameFirst(a, b);
      } else {
        assert a[..0] == b[..0];
        assert a[0] < b[0] ==> LowerAt(a, b, 0);
        assert forall k :: k > 0 && LowerAt(a, b, k) ==> a[..k][0] == b[..k][0];
      }
    }
  }

  lemma SameFirst(a: string, b: string)
    requires a != [] && b != [] && a[0] == b[0]
    ensures a <= b <==> a[1..] <= b[1..]
    ensures (exists k :: LowerAt(a, b, k)) <==> exists k :: LowerAt(a[1..], b[1..], k)
  {
    assert a == [a[0]] + a[1..] && b == [b[0]] + b[1..];
    if k :| LowerAt(a, b, k) {
      assert a[1..][..k - 1] == a[..k][1..] == b[..k][1..] == b[1..][..k - 1];
      assert LowerAt(a[1..], b[1..], k - 1);
    }
    if k :| LowerAt(a[1..], b[1..], k) {
      assert a[..k + 1] == [a[0]] + a[1..][..k] == b[..k + 1];
      assert LowerAt(a, b, k + 1);
    }
  }

  predicate Sorted(s: seq<string>) {
    forall i, j :: 0 <= i < j < |s| ==> AtMost(s[i], s[j])
  }

  function Insert(x: string, s: seq<string>): (r: seq<string>)
    requires Sorted(s)
    ensures Sorted(r) && multiset(r) == multiset(s) + multiset{x}
  {
    if s == [] then [x]
    else if AtMost(x, s[0]) then
      InsertFirst(x, s);
      [x] + s
    else
      var r := Insert(x, s[1..]);
      InsertLater(x, s, r);
      [s[0]] + r
  }

  lemma InsertFirst(x: string, s: seq<string>)
    requires s != [] && Sorted(s) && AtMost(x, s[0])
    ensures Sorted([x] + s)
  {
    forall i | 0 <= i < |s|
      ensures AtMost(x, s[i])
    {
      if i > 0 {
        AtMostTransitive(x, s[0], s[i]);
      }
    }
  }

  lemma InsertLater(x: string, s: seq<string>, r: seq<string>)
    requires s != [] && Sorted(s) && !AtMost(x, s[0])
    requires Sorted(r) && multiset(r) == multiset(s[1..]) + multiset{x}
    ensures Sorted([s[0]] + r) && multiset([s[0]] + r) == multiset(s) + multiset{x}
  {
    AtMostTotal(x, s[0]);
    assert s == [s[0]] + s[1..];
    forall i | 0 <= i < |r|
      ensures AtMost(s[0], r[i])
    {
      assert r[i] in multiset(r);
      if r[i] != x {
        assert r[i] in multiset(s[1..]);
      }
    }
  }

  // sort.Strings
  function Sort(s: seq<string>): (r: seq<string>)
    ensures Sorted(r) && multiset(r) == multiset(s)
  {
    if s == [] then []
    else
      assert s == [s[0]] + s[1..];
      Insert(s[0], Sort(s[1..]))
  }

  // A sorted arrangement is determined by what it holds.
  lemma {:induction false} SortedUnique(s: seq<string>, t: seq<string>)
    requires Sorted(s) && Sorted(t) && multiset(s) == multiset(t)
    ensures s == t
  {
    assert |s| == |multiset(s)| == |multiset(t)| == |t|;
    if s != [] {
      SameSmallest(s, t);
      RemoveFirst(s);
      RemoveFirst(t);
      SortedUnique(s[1..], t[1..]);
      assert s == [s[0]] + s[1..] && t == [t[0]] + t[1..];
    }
  }

  lemma RemoveFirst(s: seq<string>)
    requires s != []
    ensures multiset(s[1..]) == multiset(s) - multiset{s[0]}
  {
    assert s == [s[0]] + s[1..];
  }

  lemma SameSmallest(s: seq<string>, t: seq<string>)
    requires Sorted(s) && Sorted(t) && multiset(s) == multiset(t) && s != [] && t != []
    ensures s[0] == t[0]
  {
    hide AtMost;
    assert s[0] in multiset(t) && t[0] in multiset(s);
    SmallestFirst(s, t[0]);
    SmallestFirst(t, s[0]);
    AtMostAntisymmetric(s[0], t[0]);
  }

  lemma SmallestFirst(s: seq<string>, x: string)
    requires Sorted(s) && s != [] && x in s
    ensures AtMost(s[0], x)
  {
    AtMostTotal(x, x);
  }

  function Join(s: seq<string>, sep: string): string {
    if s == [] then "" else if |s| == 1 then s[0] else s[0] + sep + Join(s[1..], sep)
  }

  lemma JoinTwo(x: string, y: string, sep: string)
    ensures Join([x, y], sep) == x + sep + y
  {
    assert [x, y][1..] == [y];
  }

  lemma SortTwo(x: string, y: string)
    requires AtMost(x, y)
    ensures Sort([x, y]) == [x, y]
  {
    hide Sort, AtMost, Insert;
    SortedUnique(Sort([x, y]), [x, y]);
  }

  // strings.Split(s, ":")[0]
  function BeforeColon(s: string): (r: string)
    ensures ':' !in r && r <= s && (|r| < |s| ==> s[|r|] == ':')
  {
    if s == [] || s[0] == ':' then [] else [s[0]] + BeforeColon(s[1..])
  }

  lemma {:induction false} BeforeColonIdempotent(s: string)
    ensures BeforeColon(BeforeColon(s)) == BeforeColon(s)
  {
    if s != [] && s[0] != ':' {
      BeforeColonIdempotent(s[1..]);
    }
  }
}
