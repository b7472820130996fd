/**
 * The seven edits of the tree builder as functions on forests, with their argument checks, and
 * what every edit and every run of edits keeps.
 */
module Edits {
  import opened Sequences
  import opened Forests
  import opened Relinking

  datatype Edit<T> =
    | SetFirstChild(node: Option<T>, child: Option<T>)
    | AppendChild(node: Option<T>, child: Option<T>)
    | InsertChild(node: Option<T>, child: Option<T>, reference: Option<T>)
    | RemoveChild(node: Option<T>, child: Option<T>)
    | ReplaceChild(node: Option<T>, child: Option<T>, oldChild: Option<T>)
    | SetNextSibling(node: Option<T>, child: Option<T>)
    | SetParent(child: Option<T>, node: Option<T>)

  datatype Fault = NullArgument | SameNode | NotAChild | IsRoot | WouldCycle

  /** How a call ends: returned, refused with an exception, or at a null pointer, with the forest reached until then. */
  datatype Outcome<T> = Done(forest: Forest<T>) | Rejected(fault: Fault) | NullDereference(forest: Forest<T>)

  /** All arguments are null or nodes of the forest. */
  ghost predicate Within<T>(f: Forest<T>, e: Edit<T>) {
    && In(f, e.node) && In(f, e.child)
    && (e.InsertChild? ==> In(f, e.reference))
    && (e.ReplaceChild? ==> In(f, e.oldChild))
  }

  ghost predicate IsAbove<T>(f: Forest<T>, a: Option<T>, x: T)
    requires f.Valid() && x in f.parent
  {
    a.Some? && f.Above(a.value, x)
  }

  /** The exception an edit throws, in the order in which its arguments are checked. */
  ghost function FaultOf<T>(f: Forest<T>, e: Edit<T>): Option<Fault>
    requires f.Valid() && Within(f, e)
  {
    match e
    case SetFirstChild(n, c) =>
      if n.None? then Some(NullArgument)
      else if n == c then Some(SameNode)
      else if IsAbove(f, c, n.value) then Some(WouldCycle) else None
    case AppendChild(n, c) =>
      if n.None? || c.None? then Some(NullArgument)
      else if n == c then Some(SameNode)
      else if IsAbove(f, c, n.value) then Some(WouldCycle) else None
    case InsertChild(n, c, r) =>
      if n.None? || c.None? then Some(NullArgument)
      else if n == c then Some(SameNode)
      else if r.Some? && f.parent[r.value] != n then Some(NotAChild)
      else if IsAbove(f, c, n.value) then Some(WouldCycle) else None
    case RemoveChild(n, c) =>
      if n.None? || c.None? then Some(NullArgument)
      else if f.parent[c.value] != n then Some(NotAChild) else None
    case ReplaceChild(n, c, o) =>
      if n.None? || c.None? || o.None? then Some(NullArgument)
      else if n == c then Some(SameNode)
      else if f.parent[o.value] != n then Some(NotAChild)
      else if IsAbove(f, c, n.value) then Some(WouldCycle) else None
    case SetNextSibling(n, c) =>
      if n.None? then Some(NullArgument)
      else if f.parent[n.value].None? then Some(IsRoot)
      else if n == c then Some(SameNode)
      else if IsAbove(f, c, n.value) then Some(WouldCycle) else None
    case SetParent(c, n) =>
      if c.None? then Some(NullArgument)
      else if c == n then Some(SameNode)
      else if n.Some? && IsAbove(f, c, n.value) then Some(WouldCycle) else None
  }

  /** Inserting a child of node before itself: the one call that runs into a null pointer. */
  ghost predicate BeforeItself<T>(f: Forest<T>, e: Edit<T>)
    requires Within(f, e)
  {
    && e.InsertChild? && e.node.Some? && e.child.Some? && e.node != e.child
    && e.reference == e.child && f.parent[e.child.value] == e.node
  }

  /** No argument check catches it. */
  lemma BeforeItselfIsNotCaught<T>(f: Forest<T>, e: Edit<T>)
    requires f.Valid() && Within(f, e) && BeforeItself(f, e)
    ensures FaultOf(f, e) == None
  {
    ParentIsNotBelow(f, e.child.value);
  }

  /** Nothing but the ancestor check stands between these arguments and the relinking. */
  ghost predicate Relinkable<T>(f: Forest<T>, e: Edit<T>)
    requires f.Valid() && Within(f, e)
  {
    FaultOf(f, e) in {None, Some(WouldCycle)} && !BeforeItself(f, e)
  }

  /** x leaves its place and becomes a child of p, before reference, or last. */
  ghost function Move<T>(f: Forest<T>, x: T, p: T, reference: Option<T>): (g: Forest<T>)
    requires f.Linked() && x in f.parent && p in f.parent
    requires reference.Some? ==> reference.value != x && reference.value in f.kids[p]
    ensures g.Linked() && g.parent.Keys == f.parent.Keys
  {
    DetachLinked(f, x);
    WithoutIsDistinct(f.kids[p], x);
    InsertLinked(Detach(f, x), x, p, reference);
    Insert(Detach(f, x), x, p, reference)
  }

  lemma PutBack<T>(f: Forest<T>, x: T, p: T, s: seq<T>)
    requires p in f.kids && x in f.parent && f.parent[x] == Some(p)
    ensures f.kids[p := s][p := f.kids[p]] == f.kids && f.parent[x := None][x := Some(p)] == f.parent
  {
  }

  /** Moving x to where it is changes nothing. */
  lemma MoveToSamePlace<T>(f: Forest<T>, x: T)
    requires f.Linked() && x in f.parent && f.parent[x].Some?
    ensures var p := f.parent[x].value;
      && (f.Next(x).Some? ==> f.Next(x).value != x && f.Next(x).value in f.kids[p])
      && Move(f, x, p, f.Next(x)) == f
  {
    hide KidsWithout, Without, With, Slot;
    var p := f.parent[x].value;
    DetachKids(f, x);
    WithoutIsDistinct(f.kids[p], x);
    WithoutThenWith(f.kids[p], x);
    PutBack(f, x, p, Without(f.kids[p], x));
  }

  /**
   * p loses the child x and all children after x, if there is an x, and then gains the last child c, if there is a c.
   */
  ghost function ReplaceTail<T>(f: Forest<T>, p: T, x: Option<T>, c: Option<T>): (g: Forest<T>)
    requires f.Linked() && p in f.parent && In(f, x) && In(f, c)
    ensures g.Linked() && g.parent.Keys == f.parent.Keys
  {
    var g := if x.Some? then CutLinked(f, x.value); Cut(f, x.value) else f;
    if c.None? then g else Move(g, c.value, p, None)
  }

  /** What the edit does to the links once its arguments are accepted. */
  ghost function Perform<T>(f: Forest<T>, e: Edit<T>): (g: Forest<T>)
    requires f.Valid() && Within(f, e) && Relinkable(f, e)
    ensures g.Linked() && g.parent.Keys == f.parent.Keys
  {
    match e
    case SetFirstChild(n, c) =>
      assert f.First(n.value).Some? ==> f.kids[n.value][0] in f.parent;
      if f.First(n.value) == c then f else ReplaceTail(f, n.value, f.First(n.value), c)
    case AppendChild(n, c) =>
      Move(f, c.value, n.value, None)
    case InsertChild(n, c, r) =>
      Move(f, c.value, n.value, r)
    case RemoveChild(n, c) =>
      DetachLinked(f, c.value);
      Detach(f, c.value)
    case ReplaceChild(n, c, o) =>
      if c == o then f
      else
        var g := Move(f, c.value, n.value, o);
        DetachLinked(g, o.value);
        Detach(g, o.value)
    case SetNextSibling(n, c) =>
      assert In(f, f.Next(n.value)) by { if f.Next(n.value).Some? { NextHasSameParent(f, n.value); } }
      if f.Next(n.value) == c then f else ReplaceTail(f, f.parent[n.value].value, f.Next(n.value), c)
    case SetParent(c, n) =>
      if f.parent[c.value] == n then f
      else if n.None? then DetachLinked(f, c.value); Detach(f, c.value)
      else Move(f, c.value, n.value, None)
  }

  ghost function Step<T>(f: Forest<T>, e: Edit<T>): Outcome<T>
    requires f.Valid() && Within(f, e)
  {
    if FaultOf(f, e).Some? then Rejected(FaultOf(f, e).value)
    else if BeforeItself(f, e) then NullDereference(Detach(f, e.child.value))
    else Done(Perform(f, e))
  }

  /** The forest in which the call ends, however it ends. */
  ghost function Afterwards<T>(f: Forest<T>, e: Edit<T>): Forest<T>
    requires f.Valid() && Within(f, e)
  {
    if Step(f, e).Rejected? then f else Step(f, e).forest
  }

  // ---------------------------------------------------------------- ancestors after cutting edges

  /** g is f with some edges removed. */
  ghost predicate Thinner<T>(f: Forest<T>, g: Forest<T>) {
    && f.parent.Keys == g.parent.Keys
    && forall x :: x in f.parent ==> g.parent[x] == f.parent[x] || g.parent[x] == None
  }

  lemma PathBack<T>(f: Forest<T>, g: Forest<T>, a: T, y: T)
    requires f.Acyclic() && g.Acyclic() && Thinner(f, g)
    requires y in f.parent && g.Rooted(y) && f.Rooted(y) && AboveOrSelf(g, a, y)
    ensures AboveOrSelf(f, a, y)
    decreases f.Depth(y)
  {
    f.AncestorsStep(y);
    g.AncestorsStep(y);
    if a != y {
      PathBack(f, g, a, f.parent[y].value);
    }
  }

  /** The way up from y to a survives when no edge on it is removed. */
  lemma PathKept<T>(f: Forest<T>, g: Forest<T>, a: T, y: T)
    requires f.Acyclic() && g.Acyclic() && Thinner(f, g)
    requires y in f.parent && g.Rooted(y) && f.Rooted(y) && AboveOrSelf(f, a, y)
    requires forall z :: z in f.parent && AboveOrSelf(f, z, y) && z != a ==> g.parent[z] == f.parent[z]
    ensures AboveOrSelf(g, a, y)
    decreases f.Depth(y)
  {
    f.AncestorsStep(y);
    g.AncestorsStep(y);
    if a != y {
      var p := f.parent[y].value;
      assert AboveOrSelf(f, y, y);
      forall z | z in f.parent && AboveOrSelf(f, z, p) ensures AboveOrSelf(f, z, y) {}
      PathKept(f, g, a, p);
    }
  }

  /** Detaching c decides nothing about who is below c. */
  lemma DetachKeepsPath<T>(f: Forest<T>, c: T, y: T)
    requires f.Valid() && c in f.parent && y in f.parent && Detach(f, c).Valid()
    ensures AboveOrSelf(Detach(f, c), c, y) <==> AboveOrSelf(f, c, y)
  {
    var g := Detach(f, c);
    assert f.Rooted(y) && g.Rooted(y);
    if AboveOrSelf(f, c, y) { PathKept(f, g, c, y); }
    if AboveOrSelf(g, c, y) { PathBack(f, g, c, y); }
  }

  lemma MoveAcyclicIff<T>(f: Forest<T>, c: T, n: T, reference: Option<T>)
    requires f.Valid() && c in f.parent && n in f.parent
    requires reference.Some? ==> reference.value != c && reference.value in f.kids[n]
    ensures Move(f, c, n, reference).Acyclic() <==> !AboveOrSelf(f, c, n)
  {
    DetachValid(f, c);
    WithoutIsDistinct(f.kids[n], c);
    DetachKeepsPath(f, c, n);
    InsertAcyclicIff(Detach(f, c), c, n, reference);
  }

  /** Cutting off x and its next siblings leaves every way up alone that avoids them. */
  lemma CutKeepsPath<T>(f: Forest<T>, x: T, c: T, y: T)
    requires f.Valid() && x in f.parent && c in f.parent && y in f.parent && Cut(f, x).Valid()
    requires f.parent[x].Some? && f.Depth(y) < f.Depth(x)
    ensures AboveOrSelf(Cut(f, x), c, y) <==> AboveOrSelf(f, c, y)
  {
    var g, p := Cut(f, x), f.parent[x].value;
    assert f.Rooted(y) && g.Rooted(y);
    if AboveOrSelf(f, c, y) {
      forall z | z in f.parent && AboveOrSelf(f, z, y) && z != c ensures g.parent[z] == f.parent[z] {
        if z in Tail(f, x) {
          f.AncestorsStep(z);
          f.AncestorsStep(x);
          if z != y { AboveIsShallower(f, z, y); }
          assert false;
        }
      }
      PathKept(f, g, c, y);
    }
    if AboveOrSelf(g, c, y) { PathBack(f, g, c, y); }
  }

  lemma ReplaceTailAcyclicIff<T>(f: Forest<T>, p: T, x: Option<T>, c: Option<T>)
    requires f.Valid() && p in f.parent && In(f, x) && In(f, c)
    requires x.Some? ==> f.parent[x.value] == Some(p)
    ensures ReplaceTail(f, p, x, c).Acyclic() <==> c.None? || !AboveOrSelf(f, c.value, p)
  {
    var g := if x.Some? then Cut(f, x.value) else f;
    if x.Some? {
      CutValid(f, x.value);
      f.ChildIsDeeper(p, x.value);
    }
    if c.Some? {
      if x.Some? { CutKeepsPath(f, x.value, c.value, p); }
      MoveAcyclicIff(g, c.value, p, None);
    }
  }

  /** Neither a child of n nor the next sibling of n is above n. */
  lemma NeighboursAreNotAbove<T>(f: Forest<T>, n: T)
    requires f.Valid() && n in f.parent
    ensures f.First(n).Some? ==> f.First(n).value != n && !f.Above(f.First(n).value, n)
    ensures f.Next(n).Some? ==> f.Next(n).value != n && !f.Above(f.Next(n).value, n)
  {
    if f.First(n).Some? {
      FirstIsDeeper(f, n);
      ParentIsNotBelow(f, f.First(n).value);
    }
    if f.Next(n).Some? {
      NextIsLater(f, n);
      if f.Above(f.Next(n).value, n) { AboveIsShallower(f, f.Next(n).value, n); }
    }
  }

  lemma SetFirstChildCycle<T>(f: Forest<T>, n: T, c: Option<T>)
    requires f.Valid() && Within(f, SetFirstChild(Some(n), c)) && Relinkable(f, SetFirstChild(Some(n), c))
    ensures FaultOf(f, SetFirstChild(Some(n), c)) == None <==> Perform(f, SetFirstChild(Some(n), c)).Acyclic()
  {
    NeighboursAreNotAbove(f, n);
    if f.First(n).Some? { FirstIsDeeper(f, n); }
    if f.First(n) != c { ReplaceTailAcyclicIff(f, n, f.First(n), c); }
  }

  lemma SetNextSiblingCycle<T>(f: Forest<T>, n: T, c: Option<T>)
    requires f.Valid() && Within(f, SetNextSibling(Some(n), c)) && Relinkable(f, SetNextSibling(Some(n), c))
    ensures FaultOf(f, SetNextSibling(Some(n), c)) == None <==> Perform(f, SetNextSibling(Some(n), c)).Acyclic()
  {
    NeighboursAreNotAbove(f, n);
    f.AncestorsStep(n);
    if f.Next(n).Some? { NextIsLater(f, n); }
    if f.Next(n) != c { ReplaceTailAcyclicIff(f, f.parent[n].value, f.Next(n), c); }
  }

  /** When c is above n, taking o away from below n does not open the cycle that moving c made. */
  lemma ReplaceStaysCyclic<T>(f: Forest<T>, n: T, c: T, o: T, g: Forest<T>, y: T, m: nat)
    requires f.Valid() && c in f.parent && n in f.parent && o in f.parent && y in f.parent
    requires f.parent[o] == Some(n) && c != o && f.Above(c, n)
    requires g.parent == f.parent[c := Some(n)][o := None]
    requires AboveOrSelf(f, c, y) && AboveOrSelf(f, y, n)
    ensures !g.ReachesRoot(y, m)
  {
    ParentIsNotBelow(f, o);
    f.AncestorsStep(y);
    if m > 0 {
      if y == c {
        ReplaceStaysCyclic(f, n, c, o, g, n, m - 1);
      } else {
        AboveIsTransitive(f, y, n);
        ReplaceStaysCyclic(f, n, c, o, g, f.parent[y].value, m - 1);
      }
    }
  }

  lemma ReplaceParents<T>(f: Forest<T>, n: T, c: T, o: T)
    requires f.Linked() && c in f.parent && n in f.parent && o in f.parent
    requires f.parent[o] == Some(n) && c != o
    ensures var h := Move(f, c, n, Some(o));
      h.parent == f.parent[c := Some(n)] && Detach(h, o).parent == f.parent[c := Some(n)][o := None]
  {
    hide KidsWithout, Without, With, Slot;
  }

  lemma ReplaceNeverReachesRoot<T>(f: Forest<T>, n: T, c: T, o: T, g: Forest<T>)
    requires f.Valid() && c in f.parent && n in f.parent && o in f.parent
    requires f.parent[o] == Some(n) && c != o && f.Above(c, n)
    requires g.parent == f.parent[c := Some(n)][o := None]
    ensures n in g.parent && !g.Rooted(n) && !g.Acyclic()
  {
    forall m: nat ensures !g.ReachesRoot(n, m) {
      ReplaceStaysCyclic(f, n, c, o, g, n, m);
    }
    assert !g.Rooted(n);
  }

  lemma ReplaceCycle<T>(f: Forest<T>, n: T, c: T, o: T)
    requires f.Valid() && c in f.parent && n in f.parent && o in f.parent
    requires f.parent[o] == Some(n) && c != o && c != n
    ensures Move(f, c, n, Some(o)).Linked()
    ensures Detach(Move(f, c, n, Some(o)), o).Acyclic() <==> !f.Above(c, n)
  {
    hide Move, Detach;
    ReplaceParents(f, n, c, o);
    var h := Move(f, c, n, Some(o));
    if f.Above(c, n) {
      ReplaceNeverReachesRoot(f, n, c, o, Detach(h, o));
    } else {
      MoveAcyclicIff(f, c, n, Some(o));
      DetachValid(h, o);
    }
  }

  // ---------------------------------------------------------------- what every edit keeps

  /** Main result on the ancestor check: it refuses exactly the relinkings that would make a cycle. */
  lemma RejectsExactlyCycles<T>(f: Forest<T>, e: Edit<T>)
    requires f.Valid() && Within(f, e) && Relinkable(f, e)
    ensures FaultOf(f, e) == None <==> Perform(f, e).Acyclic()
  {
    match e
    case AppendChild(n, c) => MoveAcyclicIff(f, c.value, n.value, None);
    case InsertChild(n, c, r) => MoveAcyclicIff(f, c.value, n.value, r);
    case RemoveChild(n, c) => DetachValid(f, c.value);
    case SetFirstChild(n, c) => SetFirstChildCycle(f, n.value, c);
    case SetNextSibling(n, c) => SetNextSiblingCycle(f, n.value, c);
    case ReplaceChild(n, c, o) =>
      if c == o {
        ParentIsNotBelow(f, c.value);
      } else {
        ReplaceCycle(f, n.value, c.value, o.value);
      }
    case SetParent(c, n) =>
      if f.parent[c.value] == n {
        if n.Some? { ParentIsNotBelow(f, c.value); }
      } else if n.None? {
        DetachValid(f, c.value);
      } else {
        MoveAcyclicIff(f, c.value, n.value, None);
      }
  }

  /** Every accepted edit leaves a valid forest on the same nodes. */
  lemma StepValid<T>(f: Forest<T>, e: Edit<T>)
    requires f.Valid() && Within(f, e) && Step(f, e).Done?
    ensures Step(f, e).forest.Valid() && Step(f, e).forest.parent.Keys == f.parent.Keys
  {
    RejectsExactlyCycles(f, e);
  }

  lemma StillWithin<T>(f: Forest<T>, g: Forest<T>, edits: seq<Edit<T>>)
    requires f.parent.Keys == g.parent.Keys && forall e :: e in edits ==> Within(f, e)
    ensures forall e :: e in edits ==> Within(g, e)
  {
    assert forall x :: x in f.parent <==> x in g.parent;
  }

  /** The forest after a run of edits, unless one of them runs into a null pointer; a refused edit changes nothing. */
  ghost function Run<T>(f: Forest<T>, edits: seq<Edit<T>>): (o: Option<Forest<T>>)
    requires f.Valid() && forall e :: e in edits ==> Within(f, e)
    ensures o.Some? ==> o.value.Valid() && o.value.parent.Keys == f.parent.Keys
    decreases |edits|
  {
    if edits == [] then Some(f)
    else
      match Step(f, edits[0])
      case Done(g) =>
        StepValid(f, edits[0]);
        StillWithin(f, g, edits[1..]);
        Run(g, edits[1..])
      case Rejected(_) => Run(f, edits[1..])
      case NullDereference(_) => None
  }

  /** The edit after the first k of the run does not insert a child before itself, if the run gets there. */
  ghost predicate SafeAt<T>(f: Forest<T>, edits: seq<Edit<T>>, k: nat)
    requires f.Valid() && (forall e :: e in edits ==> Within(f, e)) && k < |edits|
  {
    var o := Run(f, edits[..k]);
    o.Some? ==>
      assert Within(o.value, edits[k]) by { StillWithin(f, o.value, edits); }
      !BeforeItself(o.value, edits[k])
  }

  /** A run goes on from the forest in which its first edit ends. */
  lemma SafeLater<T>(f: Forest<T>, edits: seq<Edit<T>>, k: nat)
    requires f.Valid() && (forall e :: e in edits ==> Within(f, e)) && k + 1 < |edits|
    requires !Step(f, edits[0]).NullDereference?
    ensures var g, rest := Afterwards(f, edits[0]), edits[1..];
      && g.Valid() && (forall e :: e in rest ==> Within(g, e))
      && (SafeAt(f, edits, k + 1) <==> SafeAt(g, rest, k))
  {
    var g, rest := Afterwards(f, edits[0]), edits[1..];
    if Step(f, edits[0]).Done? { StepValid(f, edits[0]); }
    StillWithin(f, g, edits);
    assert edits[..k + 1][1..] == rest[..k] && edits[..k + 1][0] == edits[0];
  }

  /**
   * Main result on runs: they get to their end, in a valid forest, exactly if no step inserts a child before itself.
   */
  lemma {:induction false} RunEndsIff<T>(f: Forest<T>, edits: seq<Edit<T>>)
    requires f.Valid() && forall e :: e in edits ==> Within(f, e)
    ensures Run(f, edits).Some? <==> forall k :: 0 <= k < |edits| ==> SafeAt(f, edits, k)
    decreases |edits|
  {
    if edits != [] {
      var e, rest := edits[0], edits[1..];
      if BeforeItself(f, e) { BeforeItselfIsNotCaught(f, e); }
      assert SafeAt(f, edits, 0) <==> !BeforeItself(f, e) by { assert edits[..0] == []; }
      if !Step(f, e).NullDereference? {
        var g := Afterwards(f, e);
        if Step(f, e).Done? { StepValid(f, e); }
        StillWithin(f, g, edits);
        RunEndsIff(g, rest);
        forall k | 0 < k < |edits| ensures SafeAt(f, edits, k) <==> SafeAt(g, rest, k - 1) {
          SafeLater(f, edits, k - 1);
        }
        assert forall k :: 0 <= k < |rest| ==> (SafeAt(g, rest, k) <==> SafeAt(f, edits, k + 1));
      }
    }
  }
}
