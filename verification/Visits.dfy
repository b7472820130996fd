/** What the four answers of a callback mean for the visit that comes next. */
module Visits {
  import opened Sequences
  import opened Forests
  import opened Traversal
  import opened Preorders
  import opened NodeIterator

  /** The next sibling of the nearest node on the stack that has one. */
  ghost function ClimbFrom<T>(f: Forest<T>, stack: seq<T>): Option<Visit<T>>
    requires OnForest(f, stack, None)
  {
    if stack == [] then None
    else
      var top, rest := stack[|stack| - 1], stack[..|stack| - 1];
      if f.Next(top).Some? then Some(Visit(rest, f.Next(top).value)) else ClimbFrom(f, rest)
  }

  /**
   * The visit after v: the first child, or if there is none or the answer was Lateral, the next sibling, or if there is
   * none or the answer was Ascend, the next sibling of the nearest node above that has one. After Stop there is none.
   */
  ghost function NextVisit<T>(f: Forest<T>, v: Visit<T>, answer: Continuation): Option<Visit<T>>
    requires OnForest(f, v.stack, Some(v.node))
  {
    if answer == Stop then None
    else if answer == VerticalAndLateral && f.First(v.node).Some? then
      Some(Visit(v.stack + [v.node], f.First(v.node).value))
    else if answer != Ascend && f.Next(v.node).Some? then Some(Visit(v.stack, f.Next(v.node).value))
    else ClimbFrom(f, v.stack)
  }

  /** The visit a loop turn starts with. */
  ghost function Entry<T>(f: Forest<T>, stack: seq<T>, o: Option<T>): Option<Visit<T>>
    requires OnForest(f, stack, o)
  {
    if o.Some? then Some(Visit(stack, o.value)) else ClimbFrom(f, stack)
  }

  /** From the i-th visit on, each answer decides which visit comes next. */
  ghost predicate ObeysFrom<T>(f: Forest<T>, visits: seq<Visit<T>>, callback: seq<Visit<T>> -> Continuation, i: nat) {
    forall k {:trigger visits[k]} :: i <= k < |visits| ==>
      && OnForest(f, visits[k].stack, Some(visits[k].node))
      && NextVisit(f, visits[k], callback(visits[..k + 1])) == if k + 1 < |visits| then Some(visits[k + 1]) else None
  }

  /** all goes on from the first visits with the given one, and obeys the answers from there on. */
  ghost predicate GoesOn<T>(f: Forest<T>, visits: seq<Visit<T>>, entry: Option<Visit<T>>, all: seq<Visit<T>>,
                            callback: seq<Visit<T>> -> Continuation) {
    && |visits| <= |all| && all[..|visits|] == visits
    && entry == (if |visits| < |all| then Some(all[|visits|]) else None)
    && ObeysFrom(f, all, callback, |visits|)
  }

  lemma EntryAfterVisit<T>(f: Forest<T>, stack: seq<T>, x: T, answer: Continuation)
    requires OnForest(f, stack, Some(x))
    ensures OnForest(f, stack, f.Next(x)) && OnForest(f, stack + [x], f.First(x))
    ensures NextVisit(f, Visit(stack, x), answer) ==
      match answer
      case Stop => None
      case Ascend => Entry(f, stack, None)
      case Lateral => Entry(f, stack, f.Next(x))
      case VerticalAndLateral => Entry(f, stack + [x], f.First(x))
  {
    LeftAfterVisit(f, stack, x);
    assert (stack + [x])[..|stack|] == stack;
  }

  lemma ObeysOneEarlier<T>(f: Forest<T>, all: seq<Visit<T>>, callback: seq<Visit<T>> -> Continuation, i: nat)
    requires i < |all| && ObeysFrom(f, all, callback, i + 1) && OnForest(f, all[i].stack, Some(all[i].node))
    requires NextVisit(f, all[i], callback(all[..i + 1])) == if i + 1 < |all| then Some(all[i + 1]) else None
    ensures ObeysFrom(f, all, callback, i)
  {
  }

  lemma OneMoreVisit<T>(f: Forest<T>, visits: seq<Visit<T>>, v: Visit<T>, entry: Option<Visit<T>>,
                        all: seq<Visit<T>>, callback: seq<Visit<T>> -> Continuation)
    requires OnForest(f, v.stack, Some(v.node)) && NextVisit(f, v, callback(visits + [v])) == entry
    requires GoesOn(f, visits + [v], entry, all, callback)
    ensures GoesOn(f, visits, Some(v), all, callback)
  {
    hide NextVisit, ObeysFrom, Forest.Linked, Forest.Acyclic;
    var n := |visits|;
    assert all[..n + 1] == visits + [v];
    assert all[n] == (visits + [v])[n] == v;
    assert all[..n] == visits by { assert (visits + [v])[..n] == visits && all[..n + 1][..n] == all[..n]; }
    ObeysOneEarlier(f, all, callback, n);
  }

  lemma NoMoreVisits<T>(f: Forest<T>, visits: seq<Visit<T>>, callback: seq<Visit<T>> -> Continuation)
    ensures GoesOn(f, visits, None, visits, callback)
  {
    assert visits[..|visits|] == visits;
  }

  lemma ResumeNothing<T>(f: Forest<T>, visits: seq<Visit<T>>, callback: seq<Visit<T>> -> Continuation)
    requires f.Valid()
    ensures Resume(f, [], None, visits, callback) == visits
  {
  }

  lemma {:induction false} ResumeGoesOn<T>(f: Forest<T>, stack: seq<T>, o: Option<T>, visits: seq<Visit<T>>,
                                           callback: seq<Visit<T>> -> Continuation)
    requires OnForest(f, stack, o)
    ensures GoesOn(f, visits, Entry(f, stack, o), Resume(f, stack, o, visits, callback), callback)
    decreases Left(f, stack, o), |stack|
  {
    hide Resume, Left, GoesOn, NextVisit, Forest.Acyclic;
    match o
    case Some(x) =>
      var v := Visit(stack, x);
      var now := visits + [v];
      VisitStep(f, stack, x, visits, callback);
      LeftAfterVisit(f, stack, x);
      EntryAfterVisit(f, stack, x, callback(now));
      var all := Resume(f, stack, Some(x), visits, callback);
      match callback(now) {
        case Stop => NoMoreVisits(f, now, callback);
        case Ascend => ResumeGoesOn(f, stack, None, now, callback);
        case Lateral => ResumeGoesOn(f, stack, f.Next(x), now, callback);
        case VerticalAndLateral => ResumeGoesOn(f, stack + [x], f.First(x), now, callback);
      }
      OneMoreVisit(f, visits, v, NextVisit(f, v, callback(now)), all, callback);
    case None =>
      if stack == [] {
        ResumeNothing(f, visits, callback);
        NoMoreVisits(f, visits, callback);
      } else {
        PopStep(f, stack, visits, callback);
        LeftAfterPop(f, stack);
        ResumeGoesOn(f, stack[..|stack| - 1], f.Next(stack[|stack| - 1]), visits, callback);
      }
  }

  /**
   * Main result on the answers: the walk begins with the start node, and after each visit the answer alone decides
   * which one comes next, or that there is none.
   */
  lemma AnswersAreObeyed<T>(f: Forest<T>, start: T, callback: seq<Visit<T>> -> Continuation)
    requires f.Valid() && start in f.parent
    ensures var visits := VisitLevel(LevelAt(f, Some(start)), [], [], callback).visits;
      visits != [] && visits[0] == Visit([], start) && ObeysFrom(f, visits, callback, 0)
  {
    hide NextVisit, Resume, VisitLevel;
    ResumeAtTheEnds(f, start, [], callback);
    ResumeGoesOn(f, [], Some(start), [], callback);
  }

  function NodesOf<T>(visits: seq<Visit<T>>): seq<T> {
    seq(|visits|, i requires 0 <= i < |visits| => visits[i].node)
  }

  /** If the answer is always to go on everywhere, every node of the level is visited, once and in preorder. */
  lemma {:induction false} AllAreVisited<T>(l: Level<T>, path: seq<T>, visits: seq<Visit<T>>)
    ensures var w := VisitLevel(l, path, visits, (_: seq<Visit<T>>) => VerticalAndLateral);
      !w.stopped && NodesOf(w.visits) == NodesOf(visits) + Preorder(l)
    decreases l
  {
    hide VisitLevel;
    var callback := (_: seq<Visit<T>>) => VerticalAndLateral;
    VisitLevelStep(l, path, visits, callback);
    match l
    case Nil =>
    case Cons(x, below, after) =>
      var now := visits + [Visit(path, x)];
      var w := VisitLevel(below, path + [x], now, callback);
      AllAreVisited(below, path + [x], now);
      AllAreVisited(after, path, w.visits);
      assert NodesOf(now) == NodesOf(visits) + [x];
      ConcatIsAssociative(NodesOf(visits), [x], Preorder(below));
      ConcatIsAssociative(NodesOf(visits), [x] + Preorder(below), Preorder(after));
  }
}
