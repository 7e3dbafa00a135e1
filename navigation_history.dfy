/** Back/forward navigation over visited entries: two stacks, a `visit`
    that pushes onto the back stack and clears the forward stack, and
    `back`/`forward` that move one entry from one stack to the other,
    leaving the entry the caller is currently on behind. */
module NavigationHistory {
  import opened Common

  /** The two stacks, last element on top. */
  datatype Stacks<T> = Stacks(back: seq<T>, forward: seq<T>)

  /** The number of entries remembered on either side. */
  function Size<T>(s: Stacks<T>): nat
  {
    |s.back| + |s.forward|
  }

  /** `visit(entry)`: push onto the back stack, forget everything forward. */
  function VisitStep<T>(s: Stacks<T>, entry: T): Stacks<T>
  {
    Stacks(s.back + [entry], [])
  }

  /** `back(current)`: `null` on an empty back stack; otherwise the popped
      top of the back stack, with `current` pushed onto the forward stack. */
  function BackStep<T>(s: Stacks<T>, current: T): (Option<T>, Stacks<T>)
  {
    if |s.back| == 0 then (None, s)
    else (Some(s.back[|s.back| - 1]), Stacks(s.back[..|s.back| - 1], s.forward + [current]))
  }

  /** `forward(current)`: the mirror image of `back`. */
  function ForwardStep<T>(s: Stacks<T>, current: T): (Option<T>, Stacks<T>)
  {
    if |s.forward| == 0 then (None, s)
    else (Some(s.forward[|s.forward| - 1]), Stacks(s.back + [current], s.forward[..|s.forward| - 1]))
  }

  /** Going back and then forward again from the entry `back` returned
      brings the caller back to where they were and restores both stacks. */
  lemma BackThenForward<T>(s: Stacks<T>, current: T)
    requires BackStep(s, current).0.Some?
    ensures var (b, s1) := BackStep(s, current);
            ForwardStep(s1, b.value) == (Some(current), s)
  {
    assert s.back[..|s.back| - 1] + [s.back[|s.back| - 1]] == s.back;
  }

  /** Going forward and then back again restores everything likewise. */
  lemma ForwardThenBack<T>(s: Stacks<T>, current: T)
    requires ForwardStep(s, current).0.Some?
    ensures var (f, s1) := ForwardStep(s, current);
            BackStep(s1, f.value) == (Some(current), s)
  {
    assert s.forward[..|s.forward| - 1] + [s.forward[|s.forward| - 1]] == s.forward;
  }

  /** A step that moves an entry pops one stack and pushes the other, so the
      total is kept; a step that returns `null` changes nothing. */
  lemma StepsKeepSize<T>(s: Stacks<T>, current: T)
    ensures var (b, s1) := BackStep(s, current);
            (b.Some? ==> Size(s1) == Size(s)) && (b.None? <==> |s.back| == 0) && (b.None? ==> s1 == s)
    ensures var (f, s2) := ForwardStep(s, current);
            (f.Some? ==> Size(s2) == Size(s)) && (f.None? <==> |s.forward| == 0) && (f.None? ==> s2 == s)
  {
  }

  /** Right after a visit there is nothing to go forward to. */
  lemma ForwardAfterVisit<T>(s: Stacks<T>, entry: T, current: T)
    ensures ForwardStep(VisitStep(s, entry), current) == (None, VisitStep(s, entry))
  {
  }

  /** Right after a visit, going back returns the visited entry. */
  lemma BackAfterVisit<T>(s: Stacks<T>, entry: T, current: T)
    ensures BackStep(VisitStep(s, entry), current) == (Some(entry), Stacks(s.back, [current]))
  {
    assert (s.back + [entry])[..|s.back|] == s.back;
    assert [] + [current] == [current];
  }

  /** The navigation history object. */
  class NavigationHistory<T> {
    var backStack: seq<T>
    var forwardStack: seq<T>

    function State(): Stacks<T>
      reads this
    {
      Stacks(backStack, forwardStack)
    }

    /** A new history has nothing behind and nothing ahead. */
    constructor()
      ensures backStack == [] && forwardStack == []
    {
      backStack := [];
      forwardStack := [];
    }

    method Visit(entry: T)
      modifies this
      ensures backStack == old(backStack) + [entry] && forwardStack == []
      ensures State() == VisitStep(old(State()), entry)
    {
      backStack := backStack + [entry];
      forwardStack := [];
    }

    method Back(currentEntry: T) returns (r: Option<T>)
      modifies this
      ensures old(backStack) == [] ==> r.None? && backStack == old(backStack) && forwardStack == old(forwardStack)
      ensures old(backStack) != [] ==>
                && r == Some(old(backStack)[|old(backStack)| - 1])
                && backStack == old(backStack)[..|old(backStack)| - 1]
                && forwardStack == old(forwardStack) + [currentEntry]
      ensures (r, State()) == BackStep(old(State()), currentEntry)
    {
      if |backStack| == 0 {
        return None;
      }
      forwardStack := forwardStack + [currentEntry];
      r := Some(backStack[|backStack| - 1]);
      backStack := backStack[..|backStack| - 1];
    }

    method Forward(currentEntry: T) returns (r: Option<T>)
      modifies this
      ensures old(forwardStack) == [] ==> r.None? && backStack == old(backStack) && forwardStack == old(forwardStack)
      ensures old(forwardStack) != [] ==>
                && r == Some(old(forwardStack)[|old(forwardStack)| - 1])
                && forwardStack == old(forwardStack)[..|old(forwardStack)| - 1]
                && backStack == old(backStack) + [currentEntry]
      ensures (r, State()) == ForwardStep(old(State()), currentEntry)
    {
      if |forwardStack| == 0 {
        return None;
      }
      backStack := backStack + [currentEntry];
      r := Some(forwardStack[|forwardStack| - 1]);
      forwardStack := forwardStack[..|forwardStack| - 1];
    }
  }
}
