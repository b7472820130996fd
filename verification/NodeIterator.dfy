/**
 * The depth-first visitor. A callback is a function of everything visited so far, so that it can
 * stand for any callback, also one that keeps state between its calls.
 */
module NodeIterator {
  import opened Sequences
  import opened Forests
  import opened Traversal
  import opened Nodes

  datatype Continuation = VerticalAndLateral | Lateral | Ascend | Stop

  /** One call of the callback: the visited node, and the stack at that moment. */
  datatype Visit<T> = Visit(stack: seq<T>, node: T)

  datatype Walk<T> = Walk(visits: seq<Visit<T>>, stopped: bool)

  /** The structural recursion: the visits on a level below the nodes in path, appended to visits. */
  ghost function VisitLevel<T>(l: Level<T>, path: seq<T>, visits: seq<Visit<T>>,
                               callback: seq<Visit<T>> -> Continuation): Walk<T> {
    match l
    case Nil => Walk(visits, false)
    case Cons(x, below, after) =>
      var now := visits + [Visit(path, x)];
      match callback(now)
      case Stop => Walk(now, true)
      case Ascend => Walk(now, false)
      case Lateral => VisitLevel(after, path, now, callback)
      case VerticalAndLateral =>
        var w := VisitLevel(below, path + [x], now, callback);
        if w.stopped then w else VisitLevel(after, path, w.visits, callback)
  }

  lemma VisitLevelStep<T>(l: Level<T>, path: seq<T>, visits: seq<Visit<T>>, callback: seq<Visit<T>> -> Continuation)
    ensures VisitLevel(l, path, visits, callback) ==
      match l
      case Nil => Walk(visits, false)
      case Cons(x, below, after) =>
        var now := visits + [Visit(path, x)];
        match callback(now)
        case Stop => Walk(now, true)
        case Ascend => Walk(now, false)
        case Lateral => VisitLevel(after, path, now, callback)
        case VerticalAndLateral =>
          var w := VisitLevel(below, path + [x], now, callback);
          if w.stopped then w else VisitLevel(after, path, w.visits, callback)
  {
  }

  /** What is left to do: the level at o, then, level by level, what comes after the nodes on the stack. */
  ghost function Resume<T>(f: Forest<T>, stack: seq<T>, o: Option<T>,
                           visits: seq<Visit<T>>, callback: seq<Visit<T>> -> Continuation): seq<Visit<T>>
    requires OnForest(f, stack, o)
    decreases |stack|
  {
    var w := VisitLevel(LevelAt(f, o), stack, visits, callback);
    if w.stopped || stack == [] then w.visits
    else
      LeftAfterPop(f, stack);
      Resume(f, stack[..|stack| - 1], f.Next(stack[|stack| - 1]), w.visits, callback)
  }

  /** What one call of the callback does to the work left. */
  lemma VisitStep<T>(f: Forest<T>, stack: seq<T>, x: T, visits: seq<Visit<T>>, callback: seq<Visit<T>> -> Continuation)
    requires OnForest(f, stack, Some(x))
    ensures OnForest(f, stack, f.Next(x)) && OnForest(f, stack + [x], f.First(x))
    ensures var now := visits + [Visit(stack, x)];
      Resume(f, stack, Some(x), visits, callback) ==
        match callback(now)
        case Stop => now
        case Ascend => Resume(f, stack, None, now, callback)
        case Lateral => Resume(f, stack, f.Next(x), now, callback)
        case VerticalAndLateral => Resume(f, stack + [x], f.First(x), now, callback)
  {
    LevelStep(f, x);
    assert (stack + [x])[..|stack|] == stack;
  }

  /** What popping the stack does to the work left. */
  lemma PopStep<T>(f: Forest<T>, stack: seq<T>, visits: seq<Visit<T>>, callback: seq<Visit<T>> -> Continuation)
    requires OnForest(f, stack, None) && stack != []
    ensures var top, rest := stack[|stack| - 1], stack[..|stack| - 1];
      && top in f.parent && OnForest(f, rest, f.Next(top))
      && Resume(f, stack, None, visits, callback) == Resume(f, rest, f.Next(top), visits, callback)
  {
    LeftAfterPop(f, stack);
  }

  lemma ResumeAtTheEnds<T>(f: Forest<T>, x: T, visits: seq<Visit<T>>, callback: seq<Visit<T>> -> Continuation)
    requires f.Valid() && x in f.parent
    ensures OnForest(f, [], Some(x)) && OnForest(f, [], None)
    ensures Resume(f, [], Some(x), [], callback) == VisitLevel(LevelAt(f, Some(x)), [], [], callback).visits
    ensures Resume(f, [], None, visits, callback) == visits
  {
  }

  class SgfcNodeIterator {
    constructor () {}

    method IterateOverNodesDepthFirstPrivate(startNode: SgfcNode, callback: seq<Visit<SgfcNode>> -> Continuation,
                                             ghost f: Forest<SgfcNode>)
      returns (visits: seq<Visit<SgfcNode>>)
      requires Represents(f) && startNode in f.parent
      ensures visits == VisitLevel(LevelAt(f, Some(startNode)), [], [], callback).visits
    {
      hide Resume, VisitLevel, Left, LevelAt, Forest.Linked, Forest.Acyclic;
      ghost var target := Resume(f, [], Some(startNode), [], callback);
      ResumeAtTheEnds(f, startNode, [], callback);
      visits := [];
      var stack: seq<SgfcNode> := [];
      var currentNode: SgfcNode? := startNode;
      var continuation := VerticalAndLateral;
      while true
        invariant OnForest(f, stack, Opt(currentNode))
        invariant Resume(f, stack, Opt(currentNode), visits, callback) == target
        decreases Left(f, stack, Opt(currentNode)), |stack|
      {
        ghost var todo, height := Left(f, stack, Opt(currentNode)), |stack|;
        while currentNode != null
          invariant OnForest(f, stack, Opt(currentNode))
          invariant Resume(f, stack, Opt(currentNode), visits, callback) == target
          invariant Left(f, stack, Opt(currentNode)) < todo
              || (Left(f, stack, Opt(currentNode)) == todo && |stack| == height)
          decreases Left(f, stack, Opt(currentNode))
        {
          VisitStep(f, stack, currentNode, visits, callback);
          LeftAfterVisit(f, stack, currentNode);
          assert Links(f, currentNode);
          visits := visits + [Visit(stack, currentNode)];
          continuation := callback(visits);
          if continuation == Stop {
            ResumeAtTheEnds(f, startNode, visits, callback);
            return;
          } else if continuation == VerticalAndLateral {
            stack := stack + [currentNode];
            currentNode := currentNode.firstChild;
          } else {
            break;
          }
        }
        if continuation == Lateral && currentNode != null {
          currentNode := currentNode.nextSibling;
        } else {
          if stack != [] {
            PopStep(f, stack, visits, callback);
            LeftAfterPop(f, stack);
            currentNode := stack[|stack| - 1];
            assert Links(f, currentNode);
            stack := stack[..|stack| - 1];
            currentNode := currentNode.nextSibling;
          } else {
            break;
          }
        }
      }
      ResumeAtTheEnds(f, startNode, visits, callback);
    }

    method IterateOverNodesDepthFirst(startNode: SgfcNode?, callback: seq<Visit<SgfcNode>> -> Continuation,
                                      ghost f: Forest<SgfcNode>)
      returns (visits: seq<Visit<SgfcNode>>)
      requires Represents(f) && (startNode != null ==> startNode in f.parent)
      ensures visits == VisitLevel(LevelAt(f, Opt(startNode)), [], [], callback).visits
    {
      if startNode == null {
        return [];
      }
      visits := IterateOverNodesDepthFirstPrivate(startNode, callback, f);
    }
  }

  /** The stack of a visit is the way up from the visited node, as far as the level the walk started on. */
  ghost predicate StackIsTheWayUp<T>(f: Forest<T>, aboveStart: seq<T>, v: Visit<T>) {
    && v.node in f.parent && f.Rooted(v.node)
    && f.Ancestors(v.node) == Reversed(v.stack) + aboveStart
  }

  lemma WayUpOfNeighbours<T>(f: Forest<T>, x: T, path: seq<T>, aboveStart: seq<T>)
    requires f.Valid() && x in f.parent && StackIsTheWayUp(f, aboveStart, Visit(path, x))
    ensures f.First(x).Some? ==> StackIsTheWayUp(f, aboveStart, Visit(path + [x], f.First(x).value))
    ensures f.Next(x).Some? ==> StackIsTheWayUp(f, aboveStart, Visit(path, f.Next(x).value))
  {
    f.AncestorsStep(x);
    assert (path + [x])[..|path|] == path;
    if f.First(x).Some? {
      FirstIsDeeper(f, x);
      assert f.Rooted(f.First(x).value);
      f.AncestorsStep(f.First(x).value);
      ConcatIsAssociative([x], Reversed(path), aboveStart);
    }
    if f.Next(x).Some? {
      NextIsLater(f, x);
      assert f.Rooted(f.Next(x).value);
      f.AncestorsStep(f.Next(x).value);
    }
  }

  /** Main result on the stack: whatever the callback answers, at every visit the stack is the way up. */
  lemma {:induction false} StacksAreTheWaysUp<T>(f: Forest<T>, o: Option<T>, path: seq<T>, visits: seq<Visit<T>>,
                                                 callback: seq<Visit<T>> -> Continuation, aboveStart: seq<T>)
    requires f.Valid() && In(f, o)
    requires o.Some? ==> StackIsTheWayUp(f, aboveStart, Visit(path, o.value))
    requires forall v :: v in visits ==> StackIsTheWayUp(f, aboveStart, v)
    ensures forall v :: v in VisitLevel(LevelAt(f, o), path, visits, callback).visits ==>
              StackIsTheWayUp(f, aboveStart, v)
    decreases if o.Some? then f.Deeper(o.value) else {}, if o.Some? then Later(f, o.value) + 1 else 0
  {
    hide VisitLevel;
    VisitLevelStep(LevelAt(f, o), path, visits, callback);
    if o.Some? {
      var x := o.value;
      LevelStep(f, x);
      WayUpOfNeighbours(f, x, path, aboveStart);
      if f.First(x).Some? { FirstIsDeeper(f, x); }
      if f.Next(x).Some? { NextIsLater(f, x); }
      var now := visits + [Visit(path, x)];
      match callback(now)
      case Stop =>
      case Ascend =>
      case Lateral =>
        StacksAreTheWaysUp(f, f.Next(x), path, now, callback, aboveStart);
      case VerticalAndLateral =>
        StacksAreTheWaysUp(f, f.First(x), path + [x], now, callback, aboveStart);
        var w := VisitLevel(LevelAt(f, f.First(x)), path + [x], now, callback);
        if !w.stopped { StacksAreTheWaysUp(f, f.Next(x), path, w.visits, callback, aboveStart); }
    }
  }
}
