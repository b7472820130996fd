/** The tree builder: the edits of a game tree, done by relinking heap nodes. */
module TreeBuilder {
  import opened Sequences
  import opened Forests
  import opened Relinking
  import opened Edits
  import opened Nodes

  /** How a call ends on the heap; NullDereferenced stands for the end of the program at a null pointer. */
  datatype Result = Ok | Thrown(fault: Fault) | NullDereferenced

  ghost function ResultOf<T>(f: Forest<T>, e: Edit<T>): Result
    requires f.Valid() && Within(f, e)
  {
    var fault := FaultOf(f, e);
    if fault.Some? then Thrown(fault.value) else if BeforeItself(f, e) then NullDereferenced else Ok
  }

  // ---------------------------------------------------------------- the heap between two relinking steps

  /**
   * The links of n when the siblings of x have closed the gap it leaves, and x, if gone, has no parent and no sibling.
   */
  ghost predicate HalfDetached(f: Forest<SgfcNode>, x: SgfcNode, gone: bool, n: SgfcNode)
    requires f.Linked() && x in f.parent && n in f.parent
    reads n
  {
    && n.firstChild == Ptr(if f.First(n) == Some(x) then f.Next(x) else f.First(n))
    && n.parent == (if gone && n == x then null else Ptr(f.parent[n]))
    && n.nextSibling ==
         if gone && n == x then null else Ptr(if f.Next(n) == Some(x) then f.Next(x) else f.Next(n))
  }

  lemma DetachIsDone(f: Forest<SgfcNode>, x: SgfcNode, n: SgfcNode)
    requires f.Linked() && x in f.parent && f.parent[x].Some? && n in f.parent && HalfDetached(f, x, true, n)
    requires Detach(f, x).Linked()
    ensures Links(Detach(f, x), n)
  {
    DetachFirst(f, x, n);
    DetachNext(f, x, n);
  }

  /** n is the sibling before reference, or the last child of p if there is no reference. */
  ghost predicate IsBefore(f: Forest<SgfcNode>, p: SgfcNode, reference: Option<SgfcNode>, n: SgfcNode)
    requires f.Linked() && p in f.parent && n in f.parent
  {
    if reference.Some? then f.Next(n) == reference else f.Last(p) == Some(n)
  }

  /** The links of n when the node before the slot points to x, and x, if in, points to its new neighbours. */
  ghost predicate HalfInserted(f: Forest<SgfcNode>, x: SgfcNode, p: SgfcNode, reference: Option<SgfcNode>, done: bool,
                               n: SgfcNode)
    requires f.Linked() && p in f.parent && n in f.parent
    reads n
  {
    && n.firstChild == (if n == p && f.First(p) == reference then x else Ptr(f.First(n)))
    && n.parent == (if done && n == x then p else Ptr(f.parent[n]))
    && n.nextSibling ==
         if done && n == x then Ptr(reference) else if IsBefore(f, p, reference, n) then x else Ptr(f.Next(n))
  }

  lemma InsertIsDone(f: Forest<SgfcNode>, x: SgfcNode, p: SgfcNode, reference: Option<SgfcNode>, n: SgfcNode)
    requires f.Linked() && x in f.parent && f.parent[x].None? && p in f.parent && n in f.parent
    requires reference.Some? ==> reference.value in f.kids[p]
    requires HalfInserted(f, x, p, reference, true, n)
    requires Insert(f, x, p, reference).Linked()
    ensures Links(Insert(f, x, p, reference), n)
  {
    InsertFirst(f, x, p, reference, n);
    InsertNext(f, x, p, reference, n);
  }

  /** The links of n when nothing points to x any more and the nodes in loose have no parent and no sibling. */
  ghost predicate HalfCut(f: Forest<SgfcNode>, x: SgfcNode, loose: set<SgfcNode>, n: SgfcNode)
    requires f.Linked() && n in f.parent
    reads n
  {
    && n.firstChild == (if f.First(n) == Some(x) then null else Ptr(f.First(n)))
    && n.parent == (if n in loose then null else Ptr(f.parent[n]))
    && n.nextSibling == (if n in loose || f.Next(n) == Some(x) then null else Ptr(f.Next(n)))
  }

  lemma CutIsDone(f: Forest<SgfcNode>, x: SgfcNode, loose: set<SgfcNode>, n: SgfcNode)
    requires f.Linked() && x in f.parent && n in f.parent && HalfCut(f, x, loose, n)
    requires Cut(f, x).Linked() && Cut(f, x).parent.Keys == f.parent.Keys
    requires forall y :: y in loose <==> y in Tail(f, x)
    ensures Links(Cut(f, x), n)
  {
    if f.parent[x].Some? {
      CutFirst(f, x, n);
      CutNext(f, x, n);
    } else {
      OnlyParentPointsTo(f, x, n);
      OnlyPreviousPointsTo(f, x, n);
    }
  }

  lemma TailStarts<T>(f: Forest<T>, x: T)
    requires f.Linked() && x in f.parent
    ensures Tail(f, x) != [] && Tail(f, x)[0] == x
  {
  }

  /** The nodes cut loose are linked one to the next, without repetition. */
  lemma TailIsAChain<T>(f: Forest<T>, x: T, i: nat)
    requires f.Linked() && x in f.parent && i < |Tail(f, x)|
    ensures var t := Tail(f, x);
      && t[i] in f.parent && t[i] !in t[..i] && f.Next(t[i]) != Some(x)
      && f.Next(t[i]) == if i + 1 < |t| then Some(t[i + 1]) else None
  {
    if f.parent[x].Some? {
      var p, k := f.parent[x].value, f.Place(x);
      LinksAt(f, p, k + i);
      if k + i + 1 < |f.kids[p]| { IndexIsUnique(f.kids[p], k + i + 1); }
    }
  }

  /** The node that will point to a node inserted before reference, or last. */
  lemma BeforeSlot(f: Forest<SgfcNode>, p: SgfcNode, reference: Option<SgfcNode>, n: SgfcNode?)
    requires f.Linked() && p in f.kids
              && (reference.Some? ==> reference.value in f.kids[p] && reference.value in f.parent)
    requires f.First(p) != reference
    requires n == Ptr(if reference.None? then f.Last(p) else f.Previous(reference.value))
    requires reference.Some? ==> f.parent[reference.value] == Some(p)
    ensures n != null && n in f.parent
    ensures reference.Some? ==> f.Next(n) == reference
    ensures reference.None? ==> f.Last(p) == Some(n)
  {
    if reference.Some? {
      var k := f.Place(reference.value);
      if k == 0 { assert false; }
      LinksAt(f, p, k - 1);
    } else {
      LinksAt(f, p, |f.kids[p]| - 1);
    }
  }

  /**
   * Inserting a child of n before itself: once the child is detached, n does not have it as its first
   * child, and it has no previous sibling, so the pointer the insertion would follow is null.
   */
  lemma InsertBeforeItselfFindsNoPreviousSibling<T>(f: Forest<T>, n: T, c: T)
    requires f.Valid() && c in f.parent && f.parent[c] == Some(n)
    ensures var g := Detach(f, c); g.Linked() && c in g.parent && g.First(n) != Some(c) && g.Previous(c) == None
  {
    DetachValid(f, c);
    DetachFirst(f, c, n);
    AfterIndex(f.kids[n], f.Place(c));
  }

  /** How InsertChild ends behind its first four checks, and where it ends early. */
  lemma InsertChildEnds<T>(f: Forest<T>, n: T, c: T, r: Option<T>)
    requires f.Valid() && n in f.parent && c in f.parent && n != c && In(f, r)
    requires r.Some? ==> f.parent[r.value] == Some(n)
    ensures var e := Edit.InsertChild(Some(n), Some(c), r);
      && FaultOf(f, e) == (if f.Above(c, n) then Some(WouldCycle) else None)
      && (BeforeItself(f, e) <==> r == Some(c))
      && (!f.Above(c, n) ==> Afterwards(f, e) == if r == Some(c) then Detach(f, c) else Move(f, c, n, r))
      && (f.parent[c] == Some(n) && f.Next(c) == r ==>
            !f.Above(c, n) && Afterwards(f, e) == f && !BeforeItself(f, e))
  {
    hide Move, Detach;
    if f.parent[c] == Some(n) && f.Next(c) == r {
      MoveToSamePlace(f, c);
      ParentIsNotBelow(f, c);
    }
  }

  // ---------------------------------------------------------------- the methods

  class SgfcTreeBuilder {
    constructor () {}

    /** The first child and next sibling links that lead to the node lead past it. */
    method CloseGap(node: SgfcNode, ghost f: Forest<SgfcNode>)
      requires Represents(f) && node in f.parent && f.parent[node].Some?
      modifies f.parent.Keys`firstChild, f.parent.Keys`nextSibling
      ensures forall n {:trigger HalfDetached(f, node, false, n)} :: n in f.parent ==> HalfDetached(f, node, false, n)
    {
      assert Links(f, node);
      var parentNode := node.parent;
      assert Links(f, parentNode);
      OnlyParentPointsTo(f, node, parentNode);
      if parentNode.firstChild == node {
        parentNode.firstChild := node.nextSibling;
      } else {
        var previousSibling := node.GetPreviousSibling(f);
        OnlyPreviousPointsTo(f, node, f.Previous(node).value);
        previousSibling.nextSibling := node.nextSibling;
      }
      forall n | n in f.parent ensures HalfDetached(f, node, false, n) {
        assert old(Links(f, n));
        OnlyParentPointsTo(f, node, n);
        OnlyPreviousPointsTo(f, node, n);
      }
    }

    /** The node itself lets go of its parent and its next sibling. */
    method LetGo(node: SgfcNode, ghost f: Forest<SgfcNode>)
      requires f.Linked() && node in f.parent
      requires forall n {:trigger HalfDetached(f, node, false, n)} :: n in f.parent ==> HalfDetached(f, node, false, n)
      modifies node`parent, node`nextSibling
      ensures forall n {:trigger HalfDetached(f, node, true, n)} :: n in f.parent ==> HalfDetached(f, node, true, n)
    {
      node.parent := null;
      node.nextSibling := null;
      forall n | n in f.parent ensures HalfDetached(f, node, true, n) {
        assert old(HalfDetached(f, node, false, n));
      }
    }

    method RemoveNodeFromCurrentLocation(node: SgfcNode, ghost f: Forest<SgfcNode>)
      requires Represents(f) && node in f.parent
      modifies f.parent.Keys`parent, f.parent.Keys`firstChild, f.parent.Keys`nextSibling
      ensures Represents(Detach(f, node))
    {
      DetachValid(f, node);
      assert Links(f, node);
      if node.parent == null {
        DetachKids(f, node);
        return;
      }
      CloseGap(node, f);
      LetGo(node, f);
      forall n | n in f.parent ensures Links(Detach(f, node), n) {
        assert HalfDetached(f, node, true, n);
        DetachIsDone(f, node, n);
      }
    }

    /** One turn of the loop of RemoveNodeAndAllNextSiblingsFromParent. */
    method Loosen(cursor: SgfcNode, ghost f: Forest<SgfcNode>, ghost x: SgfcNode, ghost loose: set<SgfcNode>)
      requires f.Linked() && cursor in f.parent
      requires forall n {:trigger HalfCut(f, x, loose, n)} :: n in f.parent ==> HalfCut(f, x, loose, n)
      modifies cursor`parent, cursor`nextSibling
      ensures forall n {:trigger HalfCut(f, x, loose + {cursor}, n)} :: n in f.parent ==>
                HalfCut(f, x, loose + {cursor}, n)
    {
      cursor.parent := null;
      cursor.nextSibling := null;
      forall n | n in f.parent ensures HalfCut(f, x, loose + {cursor}, n) {
        assert old(HalfCut(f, x, loose, n));
      }
    }

    /** The previous sibling and the parent no longer point to node. */
    method UnlinkFromTheLeft(node: SgfcNode, ghost f: Forest<SgfcNode>)
      requires Represents(f) && node in f.parent
      modifies f.parent.Keys`firstChild, f.parent.Keys`nextSibling
      ensures forall n {:trigger HalfCut(f, node, {}, n)} :: n in f.parent ==> HalfCut(f, node, {}, n)
    {
      assert Links(f, node);
      var previousSibling := node.GetPreviousSibling(f);
      if previousSibling != null {
        OnlyPreviousPointsTo(f, node, previousSibling);
        previousSibling.nextSibling := null;
      }
      var parentNode := node.parent;
      if parentNode != null {
        assert old(Links(f, parentNode));
        if parentNode.firstChild == node {
          parentNode.firstChild := null;
        }
      }
      forall n | n in f.parent ensures HalfCut(f, node, {}, n) {
        assert old(Links(f, n));
        OnlyParentPointsTo(f, node, n);
        OnlyPreviousPointsTo(f, node, n);
      }
    }

    method RemoveNodeAndAllNextSiblingsFromParent(node: SgfcNode?, ghost f: Forest<SgfcNode>)
      requires Represents(f) && (node != null ==> node in f.parent)
      modifies f.parent.Keys`parent, f.parent.Keys`firstChild, f.parent.Keys`nextSibling
      ensures Represents(if node == null then f else Cut(f, node))
    {
      if node == null {
        return;
      }
      UnlinkFromTheLeft(node, f);
      ghost var tail, i, loose: set<SgfcNode> := Tail(f, node), 0, {};
      TailStarts(f, node);
      var cursor: SgfcNode? := node;
      while cursor != null
        invariant i <= |tail| && cursor == if i < |tail| then tail[i] else null
        invariant forall y :: y in loose <==> y in tail[..i]
        invariant forall n {:trigger HalfCut(f, node, loose, n)} :: n in f.parent ==> HalfCut(f, node, loose, n)
        decreases |tail| - i
      {
        TailIsAChain(f, node, i);
        assert HalfCut(f, node, loose, cursor);
        var next := cursor.nextSibling;
        Loosen(cursor, f, node, loose);
        loose := loose + {cursor};
        cursor := next;
        i := i + 1;
      }
      CutValid(f, node);
      forall n | n in f.parent ensures Links(Cut(f, node), n) {
        assert HalfCut(f, node, loose, n);
        CutIsDone(f, node, loose, n);
      }
    }

    /**
     * The parent or the sibling before the slot points to the node. If the node is to be inserted before itself
     * there is no such sibling, and linked is false where the original follows a null pointer.
     */
    method LinkFromTheLeft(node: SgfcNode, newParent: SgfcNode, newNextSibling: SgfcNode?, ghost f: Forest<SgfcNode>)
      returns (linked: bool)
      requires Represents(f) && node in f.parent && f.parent[node].None? && newParent in f.parent && node != newParent
      requires newNextSibling != null ==> newNextSibling == node || newNextSibling in f.kids[newParent]
      modifies f.parent.Keys`firstChild, f.parent.Keys`nextSibling
      ensures linked <==> newNextSibling != node
      ensures !linked ==> Represents(f)
      ensures linked ==>
                forall n {:trigger HalfInserted(f, node, newParent, Opt(newNextSibling), false, n)} ::
                  n in f.parent ==> HalfInserted(f, node, newParent, Opt(newNextSibling), false, n)
    {
      ghost var reference := Opt(newNextSibling);
      assert Links(f, newParent) && Links(f, node);
      OnlyParentPointsTo(f, node, newParent);
      if newNextSibling != null && newNextSibling != node {
        assert newNextSibling in f.parent && f.parent[newNextSibling] == Some(newParent) by {
          LinksAt(f, newParent, Slot(f.kids[newParent], reference));
        }
        OnlyParentPointsTo(f, newNextSibling, newParent);
      }
      if newParent.firstChild == newNextSibling {
        newParent.firstChild := node;
      } else {
        var previousSibling;
        if newNextSibling == null {
          previousSibling := newParent.GetLastChild(f);
        } else {
          previousSibling := newNextSibling.GetPreviousSibling(f);
        }
        if previousSibling == null {
          if newNextSibling != node { BeforeSlot(f, newParent, reference, previousSibling); }
          return false;
        }
        BeforeSlot(f, newParent, reference, previousSibling);
        previousSibling.nextSibling := node;
      }
      forall n | n in f.parent ensures HalfInserted(f, node, newParent, reference, false, n) {
        assert old(Links(f, n));
        if newNextSibling != null { OnlyPreviousPointsTo(f, newNextSibling, n); }
      }
      return true;
    }

    /** The node itself points to its new parent and its new next sibling. */
    method TakePlace(node: SgfcNode, newParent: SgfcNode, newNextSibling: SgfcNode?, ghost f: Forest<SgfcNode>)
      requires f.Linked() && node in f.parent && newParent in f.parent
      requires forall n {:trigger HalfInserted(f, node, newParent, Opt(newNextSibling), false, n)} ::
                 n in f.parent ==> HalfInserted(f, node, newParent, Opt(newNextSibling), false, n)
      modifies node`parent, node`nextSibling
      ensures forall n {:trigger HalfInserted(f, node, newParent, Opt(newNextSibling), true, n)} ::
                n in f.parent ==> HalfInserted(f, node, newParent, Opt(newNextSibling), true, n)
    {
      node.parent := newParent;
      node.nextSibling := newNextSibling;
      forall n | n in f.parent ensures HalfInserted(f, node, newParent, Opt(newNextSibling), true, n) {
        assert old(HalfInserted(f, node, newParent, Opt(newNextSibling), false, n));
      }
    }

    /** newNextSibling is null, a child of newParent, or the node itself. */
    method InsertNodeAtNewLocation(node: SgfcNode, newParent: SgfcNode, newNextSibling: SgfcNode?,
                                   ghost f: Forest<SgfcNode>)
      returns (linked: bool)
      requires Represents(f) && node in f.parent && f.parent[node].None? && newParent in f.parent
      requires newNextSibling != null ==> newNextSibling == node || newNextSibling in f.kids[newParent]
      requires !AboveOrSelf(f, node, newParent)
      modifies f.parent.Keys`parent, f.parent.Keys`firstChild, f.parent.Keys`nextSibling
      ensures linked <==> newNextSibling != node
      ensures Represents(if newNextSibling == node then f else Insert(f, node, newParent, Opt(newNextSibling)))
    {
      linked := LinkFromTheLeft(node, newParent, newNextSibling, f);
      if !linked {
        return;
      }
      TakePlace(node, newParent, newNextSibling, f);
      InsertValid(f, node, newParent, Opt(newNextSibling));
      forall n | n in f.parent ensures Links(Insert(f, node, newParent, Opt(newNextSibling)), n) {
        assert HalfInserted(f, node, newParent, Opt(newNextSibling), true, n);
        InsertIsDone(f, node, newParent, Opt(newNextSibling), n);
      }
    }

    /** The common end of the edits: remove the node from where it is, insert it where it belongs. */
    method MoveTo(child: SgfcNode, node: SgfcNode, reference: SgfcNode?, ghost f: Forest<SgfcNode>)
      returns (linked: bool)
      requires Represents(f) && child in f.parent && node in f.parent
      requires reference != null ==> reference in f.kids[node]
      requires !AboveOrSelf(f, child, node)
      modifies f.parent.Keys`parent, f.parent.Keys`firstChild, f.parent.Keys`nextSibling
      ensures linked <==> reference != child
      ensures Represents(if reference == child then Detach(f, child) else Move(f, child, node, Opt(reference)))
    {
      DetachValid(f, child);
      DetachKeepsPath(f, child, node);
      WithoutIsDistinct(f.kids[node], child);
      RemoveNodeFromCurrentLocation(child, f);
      linked := InsertNodeAtNewLocation(child, node, reference, Detach(f, child));
    }

    /** The common end of SetFirstChild and SetNextSibling: cut off x and what follows it, then append child. */
    method ReplaceChildrenFrom(node: SgfcNode, x: SgfcNode?, child: SgfcNode?, ghost f: Forest<SgfcNode>)
      requires Represents(f) && node in f.parent && In(f, Opt(x)) && In(f, Opt(child))
      requires x != null ==> f.parent[x] == Some(node)
      requires child != null ==> !AboveOrSelf(f, child, node)
      modifies f.parent.Keys`parent, f.parent.Keys`firstChild, f.parent.Keys`nextSibling
      ensures Represents(ReplaceTail(f, node, Opt(x), Opt(child)))
    {
      ghost var g := f;
      if x != null {
        RemoveNodeAndAllNextSiblingsFromParent(x, f);
        g := Cut(f, x);
        CutValid(f, x);
        f.ChildIsDeeper(node, x);
        if child != null { CutKeepsPath(f, x, child, node); }
      }
      if child == null {
        return;
      }
      var linked := MoveTo(child, node, null, g);
    }

    method SetFirstChild(node: SgfcNode?, child: SgfcNode?, ghost f: Forest<SgfcNode>) returns (r: Result)
      requires Represents(f) && Within(f, Edit.SetFirstChild(Opt(node), Opt(child)))
      modifies f.parent.Keys`parent, f.parent.Keys`firstChild, f.parent.Keys`nextSibling
      ensures r == ResultOf(f, Edit.SetFirstChild(Opt(node), Opt(child)))
      ensures Represents(Afterwards(f, Edit.SetFirstChild(Opt(node), Opt(child))))
    {
      hide Insert, Detach, Cut;
      if node == null {
        return Thrown(NullArgument);
      }
      if node == child {
        return Thrown(SameNode);
      }
      assert Links(f, node);
      NeighboursAreNotAbove(f, node);
      var oldFirstChild := node.firstChild;
      if oldFirstChild == child {
        return Ok;
      }
      if child != null {
        var above := child.IsAncestorOf(node, f);
        if above.value {
          return Thrown(WouldCycle);
        }
      }
      if oldFirstChild != null { FirstIsDeeper(f, node); }
      ReplaceChildrenFrom(node, oldFirstChild, child, f);
      return Ok;
    }

    method AppendChild(node: SgfcNode?, child: SgfcNode?, ghost f: Forest<SgfcNode>) returns (r: Result)
      requires Represents(f) && Within(f, Edit.AppendChild(Opt(node), Opt(child)))
      modifies f.parent.Keys`parent, f.parent.Keys`firstChild, f.parent.Keys`nextSibling
      ensures r == ResultOf(f, Edit.AppendChild(Opt(node), Opt(child)))
      ensures Represents(Afterwards(f, Edit.AppendChild(Opt(node), Opt(child))))
    {
      hide Insert, Detach, Cut;
      if node == null {
        return Thrown(NullArgument);
      }
      if child == null {
        return Thrown(NullArgument);
      }
      if node == child {
        return Thrown(SameNode);
      }
      assert Links(f, child);
      if child.parent == node && child.nextSibling == null {
        MoveToSamePlace(f, child);
        ParentIsNotBelow(f, child);
        return Ok;
      }
      var above := child.IsAncestorOf(node, f);
      if above.value {
        return Thrown(WouldCycle);
      }
      var linked := MoveTo(child, node, null, f);
      return Ok;
    }

    method InsertChild(node: SgfcNode?, child: SgfcNode?, referenceChild: SgfcNode?, ghost f: Forest<SgfcNode>)
      returns (r: Result)
      requires Represents(f) && Within(f, Edit.InsertChild(Opt(node), Opt(child), Opt(referenceChild)))
      modifies f.parent.Keys`parent, f.parent.Keys`firstChild, f.parent.Keys`nextSibling
      ensures r == ResultOf(f, Edit.InsertChild(Opt(node), Opt(child), Opt(referenceChild)))
      ensures Represents(Afterwards(f, Edit.InsertChild(Opt(node), Opt(child), Opt(referenceChild))))
    {
      hide Perform, Move, Detach, Insert;
      if node == null {
        return Thrown(NullArgument);
      }
      if child == null {
        return Thrown(NullArgument);
      }
      if node == child {
        return Thrown(SameNode);
      }
      assert referenceChild != null ==> Links(f, referenceChild);
      if referenceChild != null && referenceChild.parent != node {
        return Thrown(NotAChild);
      }
      InsertChildEnds<SgfcNode>(f, node, child, Opt(referenceChild));
      assert Links(f, child);
      if child.parent == node && child.nextSibling == referenceChild {
        return Ok;
      }
      var above := child.IsAncestorOf(node, f);
      if above.value {
        return Thrown(WouldCycle);
      }
      var linked := MoveTo(child, node, referenceChild, f);
      return if linked then Ok else NullDereferenced;
    }

    method RemoveChild(node: SgfcNode?, child: SgfcNode?, ghost f: Forest<SgfcNode>) returns (r: Result)
      requires Represents(f) && Within(f, Edit.RemoveChild(Opt(node), Opt(child)))
      modifies f.parent.Keys`parent, f.parent.Keys`firstChild, f.parent.Keys`nextSibling
      ensures r == ResultOf(f, Edit.RemoveChild(Opt(node), Opt(child)))
      ensures Represents(Afterwards(f, Edit.RemoveChild(Opt(node), Opt(child))))
    {
      if node == null {
        return Thrown(NullArgument);
      }
      if child == null {
        return Thrown(NullArgument);
      }
      assert Links(f, child);
      if child.parent != node {
        return Thrown(NotAChild);
      }
      RemoveNodeFromCurrentLocation(child, f);
      return Ok;
    }

    method ReplaceChild(node: SgfcNode?, newChild: SgfcNode?, oldChild: SgfcNode?, ghost f: Forest<SgfcNode>)
      returns (r: Result)
      requires Represents(f) && Within(f, Edit.ReplaceChild(Opt(node), Opt(newChild), Opt(oldChild)))
      modifies f.parent.Keys`parent, f.parent.Keys`firstChild, f.parent.Keys`nextSibling
      ensures r == ResultOf(f, Edit.ReplaceChild(Opt(node), Opt(newChild), Opt(oldChild)))
      ensures Represents(Afterwards(f, Edit.ReplaceChild(Opt(node), Opt(newChild), Opt(oldChild))))
    {
      hide Insert, Detach, Cut;
      if node == null {
        return Thrown(NullArgument);
      }
      if newChild == null {
        return Thrown(NullArgument);
      }
      if oldChild == null {
        return Thrown(NullArgument);
      }
      if node == newChild {
        return Thrown(SameNode);
      }
      assert Links(f, oldChild);
      if oldChild.parent != node {
        return Thrown(NotAChild);
      }
      if newChild == oldChild {
        ParentIsNotBelow(f, newChild);
        return Ok;
      }
      var above := newChild.IsAncestorOf(node, f);
      if above.value {
        return Thrown(WouldCycle);
      }
      var linked := MoveTo(newChild, node, oldChild, f);
      RemoveNodeFromCurrentLocation(oldChild, Move(f, newChild, node, Some(oldChild)));
      return Ok;
    }

    method SetNextSibling(node: SgfcNode?, nextSibling: SgfcNode?, ghost f: Forest<SgfcNode>) returns (r: Result)
      requires Represents(f) && Within(f, Edit.SetNextSibling(Opt(node), Opt(nextSibling)))
      modifies f.parent.Keys`parent, f.parent.Keys`firstChild, f.parent.Keys`nextSibling
      ensures r == ResultOf(f, Edit.SetNextSibling(Opt(node), Opt(nextSibling)))
      ensures Represents(Afterwards(f, Edit.SetNextSibling(Opt(node), Opt(nextSibling))))
    {
      hide Insert, Detach, Cut;
      if node == null {
        return Thrown(NullArgument);
      }
      assert Links(f, node);
      if node.parent == null {
        return Thrown(IsRoot);
      }
      if node == nextSibling {
        return Thrown(SameNode);
      }
      if nextSibling != null {
        var above := nextSibling.IsAncestorOf(node, f);
        if above.value {
          return Thrown(WouldCycle);
        }
        NotAboveParent(f, nextSibling, node);
      }
      var oldNextSibling := node.nextSibling;
      if oldNextSibling == nextSibling {
        return Ok;
      }
      if oldNextSibling != null { NextHasSameParent(f, node); }
      ReplaceChildrenFrom(node.parent, oldNextSibling, nextSibling, f);
      return Ok;
    }

    method SetParent(node: SgfcNode?, parent: SgfcNode?, ghost f: Forest<SgfcNode>) returns (r: Result)
      requires Represents(f) && Within(f, Edit.SetParent(Opt(node), Opt(parent)))
      modifies f.parent.Keys`parent, f.parent.Keys`firstChild, f.parent.Keys`nextSibling
      ensures r == ResultOf(f, Edit.SetParent(Opt(node), Opt(parent)))
      ensures Represents(Afterwards(f, Edit.SetParent(Opt(node), Opt(parent))))
    {
      hide Insert, Detach, Cut;
      if node == null {
        return Thrown(NullArgument);
      }
      if node == parent {
        return Thrown(SameNode);
      }
      assert Links(f, node);
      if node.parent == parent {
        if parent != null { ParentIsNotBelow(f, node); }
        return Ok;
      }
      if parent != null {
        var below := parent.IsDescendantOf(node, f);
        if below.value {
          return Thrown(WouldCycle);
        }
      }
      if parent != null {
        var linked := MoveTo(node, parent, null, f);
      } else {
        RemoveNodeFromCurrentLocation(node, f);
      }
      return Ok;
    }
  }
}
