/** What the depth-first loops with an explicit stack have in common: where they are, and how much is left. */
module Traversal {
  import opened Sequences
  import opened Forests

  /** The stack holds nodes of the forest, and the current node, if there is one, is in the forest. */
  ghost predicate OnForest<T>(f: Forest<T>, stack: seq<T>, o: Option<T>) {
    f.Valid() && In(f, o) && forall n :: n in stack ==> n in f.parent
  }

  /** The nodes of the level at o, and of the levels after the nodes on the stack. */
  ghost function Left<T>(f: Forest<T>, stack: seq<T>, o: Option<T>): nat
    requires OnForest(f, stack, o)
    decreases |stack|
  {
    Size(LevelAt(f, o)) +
    if stack == [] then 0
    else
      var top := stack[|stack| - 1];
      LevelStep(f, top);
      Left(f, stack[..|stack| - 1], f.Next(top))
  }

  lemma LeftSplits<T>(f: Forest<T>, stack: seq<T>, o: Option<T>)
    requires OnForest(f, stack, o)
    ensures Left(f, stack, o) == Size(LevelAt(f, o)) + Left(f, stack, None)
  {
  }

  /** Going down, going on to the next sibling, or leaving the level: each leaves less. */
  lemma LeftAfterVisit<T>(f: Forest<T>, stack: seq<T>, x: T)
    requires OnForest(f, stack, Some(x))
    ensures OnForest(f, stack + [x], f.First(x)) && Left(f, stack + [x], f.First(x)) < Left(f, stack, Some(x))
    ensures OnForest(f, stack, f.Next(x)) && Left(f, stack, f.Next(x)) < Left(f, stack, Some(x))
    ensures Left(f, stack, None) < Left(f, stack, Some(x))
  {
    LevelStep(f, x);
    assert (stack + [x])[..|stack|] == stack;
    LeftSplits(f, stack, Some(x));
    LeftSplits(f, stack, f.Next(x));
    LeftSplits(f, stack + [x], f.First(x));
  }

  /** Taking a node from the stack leaves as much. */
  lemma LeftAfterPop<T>(f: Forest<T>, stack: seq<T>)
    requires OnForest(f, stack, None) && stack != []
    ensures var top, rest := stack[|stack| - 1], stack[..|stack| - 1];
      top in f.parent && OnForest(f, rest, f.Next(top)) && Left(f, stack, None) == Left(f, rest, f.Next(top))
  {
    LevelStep(f, stack[|stack| - 1]);
  }
}
