/** When an edit is refused, said by children and ancestors; and what the early returns and a removal leave. */
module Refusals {
  import opened Sequences
  import opened Forests
  import opened Relinking
  import opened Edits

  /** A node that is needed is null. Only a new first child, a next sibling, a reference and a parent may be null. */
  ghost predicate LacksNode<T>(e: Edit<T>) {
    match e
    case SetFirstChild(n, c) => n == None
    case AppendChild(n, c) => n == None || c == None
    case InsertChild(n, c, r) => n == None || c == None
    case RemoveChild(n, c) => n == None || c == None
    case ReplaceChild(n, c, o) => n == None || c == None || o == None
    case SetNextSibling(n, c) => n == None
    case SetParent(c, n) => c == None
  }

  ghost predicate IsChildOf<T>(f: Forest<T>, c: Option<T>, n: Option<T>) {
    c.Some? && n.Some? && n.value in f.kids && c.value in f.kids[n.value]
  }

  /** The node that is to get a next sibling is nobody's child. */
  ghost predicate IsAtRoot<T>(f: Forest<T>, e: Edit<T>) {
    e.SetNextSibling? && e.node.Some? && forall p :: p in f.kids ==> e.node.value !in f.kids[p]
  }

  /** The node that is to be moved is the node it is to be moved to. */
  ghost predicate MovesToItself<T>(e: Edit<T>) {
    !e.RemoveChild? && e.node == e.child
  }

  /** The child that is to be removed or replaced, or before which is to be inserted, is no child of the node. */
  ghost predicate IsForeign<T>(f: Forest<T>, e: Edit<T>) {
    match e
    case InsertChild(n, c, r) => r.Some? && !IsChildOf(f, r, n)
    case RemoveChild(n, c) => !IsChildOf(f, c, n)
    case ReplaceChild(n, c, o) => !IsChildOf(f, o, n)
    case _ => false
  }

  /** The node that is to be moved is an ancestor of the node it is to be moved to. */
  ghost predicate MovesBelowItself<T>(f: Forest<T>, e: Edit<T>)
    requires f.Valid() && Within(f, e)
  {
    !e.RemoveChild? && e.node.Some? && e.child.Some? && f.Rooted(e.node.value)
      && e.child.value in f.Ancestors(e.node.value)
  }

  lemma ParentMeansChild<T>(f: Forest<T>, c: Option<T>, n: Option<T>)
    requires f.Valid() && In(f, c) && In(f, n) && c.Some? && n.Some?
    ensures f.parent[c.value] == n <==> IsChildOf(f, c, n)
  {
    if IsChildOf(f, c, n) { LinksAt(f, n.value, IndexOf(f.kids[n.value], c.value)); }
  }

  lemma RootMeansNoChild<T>(f: Forest<T>, n: T)
    requires f.Valid() && n in f.parent
    ensures f.parent[n].None? <==> forall p :: p in f.kids ==> n !in f.kids[p]
  {
    forall p | p in f.kids ensures n in f.kids[p] ==> f.parent[n] == Some(p) {
      if n in f.kids[p] { LinksAt(f, p, IndexOf(f.kids[p], n)); }
    }
  }

  /**
   * A null node, then a root node, then a node moved to itself, then a foreign child, then a cycle: the first one
   * counts.
   */
  ghost function Reason<T>(f: Forest<T>, e: Edit<T>): Option<Fault>
    requires f.Valid() && Within(f, e)
  {
    if LacksNode(e) then Some(NullArgument)
    else if IsAtRoot(f, e) then Some(IsRoot)
    else if MovesToItself(e) then Some(SameNode)
    else if IsForeign(f, e) then Some(NotAChild)
    else if MovesBelowItself(f, e) then Some(WouldCycle)
    else None
  }

  lemma RemoveChildFault<T>(f: Forest<T>, n: Option<T>, c: Option<T>)
    requires f.Valid() && Within(f, RemoveChild(n, c))
    ensures FaultOf(f, RemoveChild(n, c)) == Reason(f, RemoveChild(n, c))
  {
    if n.Some? && c.Some? { ParentMeansChild(f, c, n); }
  }

  lemma InsertChildFault<T>(f: Forest<T>, n: Option<T>, c: Option<T>, r: Option<T>)
    requires f.Valid() && Within(f, InsertChild(n, c, r))
    ensures FaultOf(f, InsertChild(n, c, r)) == Reason(f, InsertChild(n, c, r))
  {
    if n.Some? {
      assert f.Rooted(n.value);
      if r.Some? { ParentMeansChild(f, r, n); }
    }
  }

  lemma ReplaceChildFault<T>(f: Forest<T>, n: Option<T>, c: Option<T>, o: Option<T>)
    requires f.Valid() && Within(f, ReplaceChild(n, c, o))
    ensures FaultOf(f, ReplaceChild(n, c, o)) == Reason(f, ReplaceChild(n, c, o))
  {
    if n.Some? {
      assert f.Rooted(n.value);
      if o.Some? { ParentMeansChild(f, o, n); }
    }
  }

  lemma SetNextSiblingFault<T>(f: Forest<T>, n: Option<T>, c: Option<T>)
    requires f.Valid() && Within(f, SetNextSibling(n, c))
    ensures FaultOf(f, SetNextSibling(n, c)) == Reason(f, SetNextSibling(n, c))
  {
    if n.Some? {
      assert f.Rooted(n.value);
      RootMeansNoChild(f, n.value);
    }
  }

  lemma FaultIsReason<T>(f: Forest<T>, e: Edit<T>)
    requires f.Valid() && Within(f, e)
    ensures FaultOf(f, e) == Reason(f, e)
  {
    match e
    case SetFirstChild(n, c) => if n.Some? { assert f.Rooted(n.value); }
    case AppendChild(n, c) => if n.Some? { assert f.Rooted(n.value); }
    case InsertChild(n, c, r) => InsertChildFault(f, n, c, r);
    case RemoveChild(n, c) => RemoveChildFault(f, n, c);
    case ReplaceChild(n, c, o) => ReplaceChildFault(f, n, c, o);
    case SetNextSibling(n, c) => SetNextSiblingFault(f, n, c);
    case SetParent(c, n) => if n.Some? { assert f.Rooted(n.value); }
  }

  /** Main result on refusals: every edit is refused exactly for one of five reasons, and for the first that applies. */
  lemma RefusedIff<T>(f: Forest<T>, e: Edit<T>)
    requires f.Valid() && Within(f, e)
    ensures Step(f, e).Rejected? <==>
            LacksNode(e) || IsAtRoot(f, e) || MovesToItself(e) || IsForeign(f, e) || MovesBelowItself(f, e)
    ensures Step(f, e).Rejected? ==> Reason(f, e) == Some(Step(f, e).fault)
  {
    hide LacksNode, IsAtRoot, MovesToItself, IsForeign, MovesBelowItself, Perform;
    FaultIsReason(f, e);
  }

  // ---------------------------------------------------------------- single edits

  lemma RemovedIsDetached<T>(f: Forest<T>, n: T, c: T)
    requires f.Valid() && n in f.parent && c in f.parent && !Step(f, RemoveChild(Some(n), Some(c))).Rejected?
    ensures f.parent[c] == Some(n) && Afterwards(f, RemoveChild(Some(n), Some(c))) == Detach(f, c)
  {
  }

  lemma WithoutAt<T>(s: seq<T>, x: T) returns (i: nat)
    requires x in s
    ensures i < |s| && s[i] == x && Without(s, x) == s[..i] + s[i + 1..]
  {
    i := IndexOf(s, x);
  }

  /** Main result on RemoveChild: the child sequence of the node loses the child, and no other one changes. */
  lemma RemoveChildTakesOut<T>(f: Forest<T>, n: T, c: T) returns (i: nat)
    requires f.Valid() && n in f.parent && c in f.parent && !Step(f, RemoveChild(Some(n), Some(c))).Rejected?
    ensures i < |f.kids[n]| && f.kids[n][i] == c
    ensures var g := Afterwards(f, RemoveChild(Some(n), Some(c)));
      g.kids == f.kids[n := f.kids[n][..i] + f.kids[n][i + 1..]] && g.parent == f.parent[c := None]
  {
    hide Step, Afterwards, Without, KidsWithout;
    RemovedIsDetached(f, n, c);
    DetachKids(f, c);
    i := WithoutAt(f.kids[n], c);
  }

  /** A node that is given the parent it has, or replaced by itself, stays where it is. */
  lemma NothingToMove<T>(f: Forest<T>, n: Option<T>, c: T)
    requires f.Valid() && In(f, n) && c in f.parent && f.parent[c] == n
    ensures Step(f, SetParent(Some(c), n)) == Done(f)
    ensures n.Some? ==> Step(f, ReplaceChild(n, Some(c), Some(c))) == Done(f)
  {
    if n.Some? { ParentIsNotBelow(f, c); }
  }
}
