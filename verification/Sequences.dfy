/** Options, and sequences without repetition. */
module Sequences {
  datatype Option<+T> = None | Some(value: T)

  ghost predicate Distinct<T>(s: seq<T>) {
    forall i, j :: 0 <= i < j < |s| ==> s[i] != s[j]
  }

  ghost function IndexOf<T>(s: seq<T>, x: T): (i: nat)
    requires x in s
    ensures i < |s| && s[i] == x
  {
    var i: nat :| i < |s| && s[i] == x;
    i
  }

  /** s with one occurrence of x taken out, if there is one. */
  ghost function Without<T>(s: seq<T>, x: T): seq<T> {
    if x in s then s[..IndexOf(s, x)] + s[IndexOf(s, x) + 1..] else s
  }

  /** s with x put in at position i. */
  ghost function With<T>(s: seq<T>, x: T, i: nat): seq<T>
    requires i <= |s|
  {
    s[..i] + [x] + s[i..]
  }

  /** Where a new element of s goes: before reference, or last. */
  ghost function Slot<T>(s: seq<T>, reference: Option<T>): (i: nat)
    requires reference.Some? ==> reference.value in s
    ensures i <= |s|
  {
    if reference.None? then |s| else IndexOf(s, reference.value)
  }

  lemma IndexIsUnique<T>(s: seq<T>, i: nat)
    requires Distinct(s) && i < |s|
    ensures IndexOf(s, s[i]) == i
  {
  }

  lemma WithoutIsDistinct<T>(s: seq<T>, x: T)
    requires Distinct(s)
    ensures Distinct(Without(s, x))
    ensures forall y :: y in Without(s, x) <==> y in s && y != x
  {
    if x in s {
      var i := IndexOf(s, x);
      var r := Without(s, x);
      forall y ensures y in r <==> y in s && y != x {
        if y in s && y != x {
          var j := IndexOf(s, y);
          assert r[if j < i then j else j - 1] == y;
        }
      }
    }
  }

  lemma WithIsDistinct<T>(s: seq<T>, x: T, i: nat)
    requires Distinct(s) && i <= |s| && x !in s
    ensures Distinct(With(s, x, i))
    ensures forall y :: y in With(s, x, i) <==> y in s || y == x
  {
    var r := With(s, x, i);
    forall y ensures y in r <==> y in s || y == x {
      if y in s {
        var j := IndexOf(s, y);
        assert r[if j < i then j else j + 1] == y;
      } else if y == x {
        assert r[i] == x;
      }
    }
  }

  /** The element after x. */
  ghost function After<T>(s: seq<T>, x: T): Option<T>
    requires x in s
  {
    var i := IndexOf(s, x);
    if i + 1 < |s| then Some(s[i + 1]) else None
  }

  lemma AfterIndex<T>(s: seq<T>, i: nat)
    requires Distinct(s) && i < |s|
    ensures After(s, s[i]) == if i + 1 < |s| then Some(s[i + 1]) else None
  {
  }

  lemma AfterWithout<T>(s: seq<T>, x: T, y: T)
    requires Distinct(s) && x in s && y in s && x != y
    ensures y in Without(s, x)
    ensures After(Without(s, x), y) == if After(s, y) == Some(x) then After(s, x) else After(s, y)
  {
    var r, i, j := Without(s, x), IndexOf(s, x), IndexOf(s, y);
    WithoutIsDistinct(s, x);
    var k := if j < i then j else j - 1;
    assert r[k] == y;
    AfterIndex(r, k);
  }

  lemma AfterWith<T>(s: seq<T>, x: T, i: nat, y: T)
    requires Distinct(s) && x !in s && i <= |s| && (y == x || y in s)
    ensures y in With(s, x, i)
    ensures After(With(s, x, i), y) ==
              if y == x then (if i < |s| then Some(s[i]) else None)
              else if 0 < i && s[i - 1] == y then Some(x) else After(s, y)
  {
    var r := With(s, x, i);
    WithIsDistinct(s, x, i);
    if y == x {
      AfterIndex(r, i);
    } else {
      var j := IndexOf(s, y);
      AfterIndex(r, if j < i then j else j + 1);
    }
  }

  lemma AfterInPrefix<T>(s: seq<T>, i: nat, y: T)
    requires Distinct(s) && i < |s| && y in s[..i]
    ensures After(s[..i], y) == if After(s, y) == Some(s[i]) then None else After(s, y)
  {
    var j := IndexOf(s[..i], y);
    AfterIndex(s, j);
    AfterIndex(s[..i], j);
  }

  /** Taking x out and putting it back before its successor changes nothing. */
  lemma WithoutThenWith<T>(s: seq<T>, x: T)
    requires Distinct(s) && x in s
    ensures After(s, x).Some? ==> After(s, x).value in Without(s, x)
    ensures With(Without(s, x), x, Slot(Without(s, x), After(s, x))) == s
  {
    var r, i := Without(s, x), IndexOf(s, x);
    WithoutIsDistinct(s, x);
    if i + 1 < |s| {
      assert r[i] == s[i + 1];
      IndexIsUnique(r, i);
    }
    assert Slot(r, After(s, x)) == i;
    assert r[..i] == s[..i] && r[i..] == s[i + 1..];
  }

  lemma ConcatIsAssociative<T>(a: seq<T>, b: seq<T>, c: seq<T>)
    ensures (a + b) + c == a + (b + c)
  {
  }

  ghost function Reversed<T>(s: seq<T>): seq<T> {
    if s == [] then [] else [s[|s| - 1]] + Reversed(s[..|s| - 1])
  }

  lemma SliceOfConcat<T>(a: seq<T>, b: seq<T>, n: nat)
    requires n <= |a|
    ensures (a + b)[..n] == a[..n] && (a + b)[n..] == a[n..] + b
    ensures a[..n] + a[n..] == a
  {
  }
}
