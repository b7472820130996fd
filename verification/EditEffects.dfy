/**
 * What each accepted edit does to the child sequences, said in one piece instead of as a series
 * of relinking steps; and that a moved node takes everything below it along unchanged.
 */
module EditEffects {
  import opened Sequences
  import opened Forests
  import opened Relinking
  import opened Edits

  /** n gets the children s; nothing else changes but that c, if it was elsewhere, is no longer there. */
  ghost function NewKids<T>(f: Forest<T>, c: Option<T>, n: T, s: seq<T>): map<T, seq<T>> {
    (if c.Some? then KidsWithout(f, c.value) else f.kids)[n := s]
  }

  ghost function Drop<T>(s: seq<T>, c: Option<T>): seq<T> {
    if c.Some? then Without(s, c.value) else s
  }

  ghost function AsSeq<T>(c: Option<T>): seq<T> {
    if c.Some? then [c.value] else []
  }

  ghost function Under<T>(parent: map<T, Option<T>>, c: Option<T>, n: T): map<T, Option<T>> {
    if c.Some? then parent[c.value := Some(n)] else parent
  }

  /** p keeps its first i children and then gets c, if there is a c; its other children become roots. */
  ghost function TailReplaced<T>(f: Forest<T>, p: T, i: nat, c: Option<T>): Forest<T>
    requires p in f.kids && i <= |f.kids[p]|
  {
    Forest(Under(Orphaned(f, f.kids[p][i..]), c, p), NewKids(f, c, p, Drop(f.kids[p][..i], c) + AsSeq(c)))
  }

  /** The outcome of an accepted edit, child sequence by child sequence. */
  ghost function Expected<T>(f: Forest<T>, e: Edit<T>): Forest<T>
    requires f.Valid() && Within(f, e) && Relinkable(f, e)
  {
    match e
    case SetFirstChild(n, c) =>
      if f.First(n.value) == c then f else TailReplaced(f, n.value, 0, c)
    case AppendChild(n, c) =>
      Forest(f.parent[c.value := n], NewKids(f, c, n.value, Drop(f.kids[n.value], c) + [c.value]))
    case InsertChild(n, c, r) =>
      var s := Drop(f.kids[n.value], c);
      WithoutIsDistinct(f.kids[n.value], c.value);
      Forest(f.parent[c.value := n],
             NewKids(f, c, n.value, With(s, c.value, Slot(s, r))))
    case RemoveChild(n, c) =>
      Forest(f.parent[c.value := None], KidsWithout(f, c.value))
    case ReplaceChild(n, c, o) =>
      if c == o then f
      else
        var s := Drop(f.kids[n.value], c);
        WithoutIsDistinct(f.kids[n.value], c.value);
        Forest(f.parent[c.value := n][o.value := None], NewKids(f, c, n.value, s[IndexOf(s, o.value) := c.value]))
    case SetNextSibling(n, c) =>
      if f.Next(n.value) == c then f else TailReplaced(f, f.parent[n.value].value, f.Place(n.value) + 1, c)
    case SetParent(c, n) =>
      if f.parent[c.value] == n then f
      else if n.None? then Forest(f.parent[c.value := None], KidsWithout(f, c.value))
      else Forest(f.parent[c.value := n], NewKids(f, c, n.value, Drop(f.kids[n.value], c) + [c.value]))
  }

  /** Without asking for a linked forest: a move, in one piece. */
  lemma MoveExpected<T>(f: Forest<T>, c: T, n: T, reference: Option<T>)
    requires n in f.kids && (reference.Some? ==> reference.value in Without(f.kids[n], c))
    ensures Insert(Detach(f, c), c, n, reference) == Forest(
      f.parent[c := Some(n)],
      KidsWithout(f, c)[n := With(Without(f.kids[n], c), c, Slot(Without(f.kids[n], c), reference))])
  {
  }

  lemma AppendExpected<T>(f: Forest<T>, c: T, n: T)
    requires n in f.kids
    ensures Insert(Detach(f, c), c, n, None) ==
              Forest(f.parent[c := Some(n)], KidsWithout(f, c)[n := Without(f.kids[n], c) + [c]])
  {
    var s := Without(f.kids[n], c);
    assert With(s, c, |s|) == s + [c];
  }

  /** c in the slot before o, then o taken out, is c in the slot of o. */
  lemma WithThenWithout<T>(s: seq<T>, c: T, o: T)
    requires Distinct(s) && c !in s && o in s && c != o
    ensures Without(With(s, c, IndexOf(s, o)), o) == s[IndexOf(s, o) := c]
  {
    var i := IndexOf(s, o);
    var r := With(s, c, i);
    WithIsDistinct(s, c, i);
    IndexIsUnique(r, i + 1);
    assert r[i + 1] == o;
  }

  lemma ReplaceExpected<T>(f: Forest<T>, n: T, c: T, o: T)
    requires n in f.kids && c != o
    requires o in Without(f.kids[n], c) && Distinct(Without(f.kids[n], c)) && c !in Without(f.kids[n], c)
    requires forall q :: q in f.kids && q != n ==> o !in Without(f.kids[q], c)
    ensures var s := Without(f.kids[n], c);
      Detach(Insert(Detach(f, c), c, n, Some(o)), o) ==
        Forest(f.parent[c := Some(n)][o := None], KidsWithout(f, c)[n := s[IndexOf(s, o) := c]])
  {
    WithThenWithout(Without(f.kids[n], c), c, o);
  }

  lemma {:induction false} ReplaceChildExpected<T>(f: Forest<T>, n: T, c: T, o: T)
    requires f.Linked() && c in f.parent && n in f.parent && o in f.parent
    requires f.parent[o] == Some(n) && c != o
    ensures o in Without(f.kids[n], c)
    ensures var s := Without(f.kids[n], c);
      Detach(Move(f, c, n, Some(o)), o) ==
        Forest(f.parent[c := Some(n)][o := None], KidsWithout(f, c)[n := s[IndexOf(s, o) := c]])
  {
    forall q | q in f.kids ensures Distinct(Without(f.kids[q], c)) && c !in Without(f.kids[q], c) {
      WithoutIsDistinct(f.kids[q], c);
    }
    DetachKids(f, o);
    forall q | q in f.kids && q != n ensures o !in Without(f.kids[q], c) {
      WithoutIsDistinct(f.kids[q], c);
    }
    WithoutIsDistinct(f.kids[n], c);
    ReplaceExpected(f, n, c, o);
  }

  lemma CutThenAppendExpected<T>(f: Forest<T>, x: T, c: Option<T>)
    requires f.Linked() && x in f.parent && f.parent[x].Some? && In(f, c)
    ensures var p := f.parent[x].value; ReplaceTail(f, p, Some(x), c) == TailReplaced(f, p, f.Place(x), c)
  {
    var p, i, g := f.parent[x].value, f.Place(x), Cut(f, x);
    if c.Some? {
      AppendExpected(g, c.value, p);
      assert KidsWithout(g, c.value)[p := Without(g.kids[p], c.value) + [c.value]]
          == KidsWithout(f, c.value)[p := Without(f.kids[p][..i], c.value) + [c.value]];
    } else {
      assert f.kids[p][..i] + [] == f.kids[p][..i];
    }
  }

  /** Cutting off the children from position i on and then, if there is a c, appending c. */
  lemma ReplaceTailExpected<T>(f: Forest<T>, p: T, i: nat, c: Option<T>)
    requires f.Linked() && p in f.parent && i <= |f.kids[p]| && In(f, c)
    ensures var x := if i < |f.kids[p]| then Some(f.kids[p][i]) else None;
      In(f, x) && ReplaceTail(f, p, x, c) == TailReplaced(f, p, i, c)
  {
    if i == |f.kids[p]| {
      assert f.kids[p][..i] == f.kids[p];
      assert Orphaned(f, f.kids[p][i..]) == f.parent;
      if c.Some? { AppendExpected(f, c.value, p); } else { assert f.kids[p] + [] == f.kids[p]; }
    } else {
      LinksAt(f, p, i);
      CutThenAppendExpected(f, f.kids[p][i], c);
    }
  }

  lemma SetFirstChildExpected<T>(f: Forest<T>, n: T, c: Option<T>)
    requires f.Valid() && Within(f, SetFirstChild(Some(n), c)) && Relinkable(f, SetFirstChild(Some(n), c))
    ensures Perform(f, SetFirstChild(Some(n), c)) == Expected(f, SetFirstChild(Some(n), c))
  {
    hide ReplaceTail, TailReplaced;
    if f.First(n) != c { ReplaceTailExpected(f, n, 0, c); }
  }

  lemma SetNextSiblingExpected<T>(f: Forest<T>, n: T, c: Option<T>)
    requires f.Valid() && Within(f, SetNextSibling(Some(n), c)) && Relinkable(f, SetNextSibling(Some(n), c))
    ensures Perform(f, SetNextSibling(Some(n), c)) == Expected(f, SetNextSibling(Some(n), c))
  {
    hide ReplaceTail, TailReplaced;
    if f.Next(n) != c { ReplaceTailExpected(f, f.parent[n].value, f.Place(n) + 1, c); }
  }

  /** Main result on the effects: the relinking steps of every accepted edit add up to Expected. */
  lemma {:induction false} PerformIsExpected<T>(f: Forest<T>, e: Edit<T>)
    requires f.Valid() && Within(f, e) && Relinkable(f, e)
    ensures Perform(f, e) == Expected(f, e)
  {
    match e
    case AppendChild(n, c) => AppendExpected(f, c.value, n.value);
    case InsertChild(n, c, r) => MoveExpected(f, c.value, n.value, r);
    case RemoveChild(n, c) =>
    case SetFirstChild(n, c) => SetFirstChildExpected(f, n.value, c);
    case SetNextSibling(n, c) => SetNextSiblingExpected(f, n.value, c);
    case ReplaceChild(n, c, o) => if c != o { ReplaceChildExpected(f, n.value, c.value, o.value); }
    case SetParent(c, n) =>
      if f.parent[c.value] != n {
        if n.Some? { AppendExpected(f, c.value, n.value); }
      }
  }

  // ---------------------------------------------------------------- when children and siblings are replaced

  /** SetFirstChild replaces all children exactly if child is not in place already, or has no siblings there. */
  lemma SetFirstChildReplacesIff<T>(f: Forest<T>, n: T, c: Option<T>)
    requires f.Valid() && Within(f, SetFirstChild(Some(n), c)) && FaultOf(f, SetFirstChild(Some(n), c)) == None
    ensures var g := Afterwards(f, SetFirstChild(Some(n), c));
      n in g.kids && (g.kids[n] == AsSeq(c) <==> f.First(n) != c || |f.kids[n]| <= 1)
  {
    PerformIsExpected(f, SetFirstChild(Some(n), c));
  }

  lemma WithoutKeepsLast<T>(s: seq<T>, c: T)
    requires s != [] && s[|s| - 1] != c
    ensures Without(s, c) != [] && Without(s, c)[|Without(s, c)| - 1] == s[|s| - 1]
  {
  }

  lemma DropKeepsLast<T>(s: seq<T>, c: Option<T>)
    requires s != [] && Some(s[|s| - 1]) != c
    ensures Drop(s, c) != [] && Drop(s, c)[|Drop(s, c)| - 1] == s[|s| - 1]
  {
    if c.Some? { WithoutKeepsLast(s, c.value); }
  }

  /** At the end of the children s of p come n and then, if there is a c, c. */
  lemma NextAtTheEnd<T>(g: Forest<T>, p: T, s: seq<T>, n: T, c: Option<T>)
    requires g.Linked() && p in g.kids && g.kids[p] == s + AsSeq(c) && s != [] && s[|s| - 1] == n
    ensures n in g.parent && In(g, c) && g.Next(n) == c && (c.Some? ==> g.Next(c.value) == None)
  {
    LinksAt(g, p, |s| - 1);
    if c.Some? { LinksAt(g, p, |s|); }
  }

  lemma TailOf<T>(f: Forest<T>, p: T, i: nat, c: Option<T>)
    requires p in f.kids && i <= |f.kids[p]|
    ensures p in TailReplaced(f, p, i, c).kids && TailReplaced(f, p, i, c).kids[p] == Drop(f.kids[p][..i], c) + AsSeq(c)
  {
  }

  /**
   * SetNextSibling makes c the next sibling of n. It replaces all siblings behind n exactly if c is not in place
   * already, or has no siblings behind it.
   */
  lemma SetNextSiblingReplacesIff<T>(f: Forest<T>, n: T, c: Option<T>)
    requires f.Valid() && Within(f, SetNextSibling(Some(n), c)) && FaultOf(f, SetNextSibling(Some(n), c)) == None
    ensures var g := Afterwards(f, SetNextSibling(Some(n), c));
      && g.Valid() && n in g.parent && In(g, c)
      && g.Next(n) == c
      && (c.Some? ==> (g.Next(c.value) == None <==> f.Next(n) != c || f.Next(c.value) == None))
  {
    hide Perform, TailReplaced, Drop;
    var e := Edit<T>.SetNextSibling(Some(n), c);
    StepValid(f, e);
    PerformIsExpected(f, e);
    if f.Next(n) != c {
      var p, i := f.parent[n].value, f.Place(n);
      var s := f.kids[p][..i + 1];
      DropKeepsLast(s, c);
      TailOf(f, p, i + 1, c);
      NextAtTheEnd(Expected(f, e), p, Drop(s, c), n, c);
    }
  }

  // ---------------------------------------------------------------- what a moved node takes along

  /** If no node at or below x gets other children, everything below x looks the same. */
  lemma LevelKept<T>(f: Forest<T>, g: Forest<T>, x: T, o: Option<T>)
    requires f.Valid() && g.Valid() && f.parent.Keys == g.parent.Keys && In(f, o)
    requires o.Some? ==> f.parent[o.value].Some? && AboveOrSelf(f, x, f.parent[o.value].value)
    requires forall y :: y in f.parent && AboveOrSelf(f, x, y) ==> g.kids[y] == f.kids[y]
    ensures LevelAt(f, o) == LevelAt(g, o)
    decreases if o.Some? then f.Deeper(o.value) else {}, if o.Some? then Later(f, o.value) + 1 else 0
  {
    if o.Some? {
      var y, q := o.value, f.parent[o.value].value;
      f.AncestorsStep(y);
      assert g.kids[q][f.Place(y)] == y;
      if f.First(y).Some? { FirstIsDeeper(f, y); }
      if f.Next(y).Some? { NextIsLater(f, y); }
      LevelKept(f, g, x, f.First(y));
      LevelKept(f, g, x, f.Next(y));
    }
  }

  /** The node below which an edit puts its child argument. */
  ghost function Target<T>(f: Forest<T>, e: Edit<T>): Option<T>
    requires Within(f, e)
  {
    if e.SetNextSibling? && e.node.Some? then f.parent[e.node.value]
    else if e.RemoveChild? then None
    else e.node
  }

  lemma OthersKeepKids<T>(f: Forest<T>, e: Edit<T>, y: T)
    requires f.Valid() && Within(f, e) && Step(f, e).Done? && e.child.Some?
    requires y in f.parent && Target(f, e) != Some(y) && f.parent[e.child.value] != Some(y)
    ensures Expected(f, e).kids[y] == f.kids[y]
  {
    var c := e.child.value;
    assert c !in f.kids[y] by { DetachKids(f, c); }
    assert Without(f.kids[y], c) == f.kids[y];
  }

  lemma TargetIsNotBelow<T>(f: Forest<T>, e: Edit<T>)
    requires f.Valid() && Within(f, e) && Step(f, e).Done? && e.child.Some? && Target(f, e).Some?
    ensures Target(f, e).value in f.parent && !AboveOrSelf(f, e.child.value, Target(f, e).value)
  {
    assert FaultOf(f, e) == None;
    if e.SetNextSibling? { NotAboveParent(f, e.child.value, e.node.value); }
  }

  /** Main result on moved subtrees: whatever the edit, everything below its child argument stays as it was. */
  lemma {:induction false} MovedSubtreeKept<T>(f: Forest<T>, e: Edit<T>)
    requires f.Valid() && Within(f, e) && Step(f, e).Done? && e.child.Some?
    ensures var g, c := Step(f, e).forest, e.child.value;
      g.Valid() && c in g.parent && LevelAt(g, g.First(c)) == LevelAt(f, f.First(c))
  {
    var g, c := Step(f, e).forest, e.child.value;
    StepValid(f, e);
    PerformIsExpected(f, e);
    assert f.Rooted(c) && AboveOrSelf(f, c, c);
    forall y | y in f.parent && AboveOrSelf(f, c, y) ensures g.kids[y] == f.kids[y] {
      if f.parent[c].Some? { ParentIsNotBelow(f, c); }
      if Target(f, e).Some? { TargetIsNotBelow(f, e); }
      OthersKeepKids(f, e, y);
    }
    if f.First(c).Some? { FirstIsDeeper(f, c); }
    LevelKept(f, g, c, f.First(c));
  }
}
