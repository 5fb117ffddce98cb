/**
  Breadth-first search over a finite graph, level by level.  A graph is
  given by `kids`, which maps each node the search can meet to the nodes
  it queues.  The search starts from a set of nodes, takes nodes from
  the head of a queue and appends the nodes each one leads to; the nodes
  taken form the levels `Level(kids, start, 0)`, `Level(kids, start, 1)`,
  and so on, one after the other.  `Searching` is the state of such a
  search between two steps, and the lemmas below carry it from step to
  step.
*/
module Bfs {

  /** The elements of a queue, as a set. */
  ghost function Elems<T>(q: seq<T>): set<T>
  {
    set x | x in q
  }

  /** Every node queued from a recorded node is recorded too. */
  ghost predicate Closed<T>(kids: map<T, set<T>>)
  {
    forall x :: x in kids ==> kids[x] <= kids.Keys
  }

  /**
    `rank` strictly decreases from each recorded node to the nodes it
    queues: the graph has no cycle, so the search ends.
  */
  ghost predicate Ranked<T>(kids: map<T, set<T>>, rank: map<T, nat>)
  {
    && (forall x :: x in kids ==> x in rank)
    && (forall x, y :: x in kids && y in kids[x] ==> y in rank && rank[y] < rank[x])
  }

  /** The nodes queued from the nodes of `xs`. */
  ghost function Expand<T>(kids: map<T, set<T>>, xs: set<T>): set<T>
  {
    set x, y | x in xs && x in kids && y in kids[x] :: y
  }

  /** The nodes `i` steps below the nodes `start`. */
  ghost function Level<T>(kids: map<T, set<T>>, start: set<T>, i: nat): set<T>
  {
    if i == 0 then start else Expand(kids, Level(kids, start, i - 1))
  }

  /** A sequence of sets, each expanding the one before, from `start`, lists the levels. */
  lemma {:induction false} LevelsAre<T>(kids: map<T, set<T>>, start: set<T>, levels: seq<set<T>>)
    requires |levels| >= 1 && levels[0] == start
    requires forall i :: 0 <= i < |levels| - 1 ==> levels[i + 1] == Expand(kids, levels[i])
    ensures forall i :: 0 <= i < |levels| ==> levels[i] == Level(kids, start, i)
  {
    if |levels| > 1 {
      var init := levels[..|levels| - 1];
      LevelsAre(kids, start, init);
      assert levels[|levels| - 1] == Expand(kids, init[|levels| - 2]);
    }
  }

  /** Once a level is empty every deeper level is empty too. */
  lemma {:induction false} LevelEmpty<T>(kids: map<T, set<T>>, start: set<T>, i: nat, j: nat)
    requires Level(kids, start, i) == {} && i <= j
    ensures Level(kids, start, j) == {}
    decreases j - i
  {
    if i < j {
      assert Level(kids, start, i + 1) == Expand(kids, {});
      LevelEmpty(kids, start, i + 1, j);
    }
  }

  /**
    `levels` starts at `start`, each set in it is the expansion of the one
    before, all its nodes are recorded, and only the last one may hold a hit.
  */
  ghost predicate Chain<T>(kids: map<T, set<T>>, hits: set<T>, start: set<T>, levels: seq<set<T>>)
  {
    && |levels| >= 1 && levels[0] == start
    && (forall i :: 0 <= i < |levels| - 1 ==> levels[i + 1] == Expand(kids, levels[i]))
    && (forall j :: 0 <= j < |levels| ==> levels[j] <= kids.Keys)
    && (forall j :: 0 <= j < |levels| - 1 ==> levels[j] !! hits)
  }

  /**
    The queue `front + back` inside level `cur`: `front` holds the nodes
    of the level not yet taken, `done` the taken ones, none of them a hit,
    and `back` the nodes queued from them.
  */
  ghost predicate Queued<T>(kids: map<T, set<T>>, hits: set<T>, cur: set<T>, front: seq<T>, back: seq<T>, done: set<T>)
  {
    Elems(front) + done == cur && Elems(back) == Expand(kids, done) && done !! hits
  }

  /** The ranks of level `depth`, `cur`, leave room for the levels still to come below `top`. */
  ghost predicate Bounded<T>(kids: map<T, set<T>>, rank: map<T, nat>, top: nat, cur: set<T>, depth: nat)
  {
    && (forall x :: x in kids ==> x in rank)
    && (forall x :: x in cur ==> x in rank && rank[x] + depth < top)
  }

  /**
    The state of a search for one of the nodes `hits`, between two steps:
    `levels` lists the levels met so far, the last one being the current
    level, and `front + back` is the queue.
  */
  ghost predicate Searching<T>(kids: map<T, set<T>>, rank: map<T, nat>, top: nat, hits: set<T>,
                               start: set<T>, levels: seq<set<T>>, front: seq<T>, back: seq<T>, done: set<T>)
  {
    && Chain(kids, hits, start, levels)
    && Queued(kids, hits, levels[|levels| - 1], front, back, done)
    && Bounded(kids, rank, top, levels[|levels| - 1], |levels| - 1)
  }

  /** The search starts with the nodes of `start`, all ranked below `top`, queued. */
  lemma StartSearch<T>(kids: map<T, set<T>>, rank: map<T, nat>, top: nat, hits: set<T>,
                       start: set<T>, front: seq<T>)
    requires Ranked(kids, rank) && start <= kids.Keys && Elems(front) == start
    requires forall y :: y in start ==> rank[y] < top
    ensures Searching(kids, rank, top, hits, start, [start], front, [], {})
  {
  }

  /**
    Before the head of the queue is taken: when the current level is used
    up, the nodes queued from it become the next level.  The queue itself
    is unchanged and its head is now at the head of the current level.
  */
  lemma Advance<T>(kids: map<T, set<T>>, rank: map<T, nat>, top: nat, hits: set<T>,
                   start: set<T>, levels: seq<set<T>>, front: seq<T>, back: seq<T>, done: set<T>)
    returns (levels': seq<set<T>>, front': seq<T>, back': seq<T>, done': set<T>)
    requires Closed(kids) && Ranked(kids, rank)
    requires Searching(kids, rank, top, hits, start, levels, front, back, done) && front + back != []
    ensures Searching(kids, rank, top, hits, start, levels', front', back', done')
    ensures front' + back' == front + back && front' != []
    ensures (levels', front') == (levels, front) || |levels| < |levels'| <= top
  {
    if front != [] {
      return levels, front, back, done;
    }
    levels', front', back', done' := levels + [Elems(back)], back, [], {};
    assert done == levels[|levels| - 1] by {
      assert Elems<T>([]) == {};
    }
    forall i | 0 <= i < |levels'| - 1
      ensures levels'[i + 1] == Expand(kids, levels'[i])
    {
      if i < |levels| - 1 {
        assert levels'[i + 1] == levels[i + 1];
      }
    }
    forall j | 0 <= j < |levels'| - 1
      ensures levels'[j] !! hits
    {
      assert levels'[j] == levels[j];
    }
    forall x | x in Elems(back)
      ensures x in kids && rank[x] + |levels| < top
    {
      var y :| y in done && y in kids && x in kids[y];
    }
    assert back[0] in Elems(back);
    assert back + [] == back;
  }

  /**
    Taking the head of the current level, which is not a hit, and
    queueing the nodes it leads to (`added`) keeps the search state.
  */
  lemma PassNode<T>(kids: map<T, set<T>>, rank: map<T, nat>, top: nat, hits: set<T>,
                    start: set<T>, levels: seq<set<T>>, front: seq<T>, back: seq<T>, done: set<T>,
                    added: seq<T>)
    requires Searching(kids, rank, top, hits, start, levels, front, back, done) && front != []
    requires front[0] !in hits && front[0] in kids && Elems(added) == kids[front[0]]
    ensures Searching(kids, rank, top, hits, start, levels, front[1..], back + added, done + {front[0]})
  {
    assert front == [front[0]] + front[1..];
    assert Elems(front) == {front[0]} + Elems(front[1..]);
    assert Expand(kids, done + {front[0]}) == Expand(kids, done) + kids[front[0]];
    assert Elems(back + added) == Elems(back) + Elems(added);
  }

  /** The head of the current level lies on that level, and no level above holds a hit. */
  lemma FoundAt<T>(kids: map<T, set<T>>, rank: map<T, nat>, top: nat, hits: set<T>,
                   start: set<T>, levels: seq<set<T>>, front: seq<T>, back: seq<T>, done: set<T>)
    requires Searching(kids, rank, top, hits, start, levels, front, back, done) && front != []
    ensures front[0] in Level(kids, start, |levels| - 1) && front[0] in rank && rank[front[0]] < top
    ensures forall j :: 0 <= j < |levels| - 1 ==> Level(kids, start, j) !! hits
  {
    LevelsAre(kids, start, levels);
    assert front[0] in Elems(front);
  }

  /** An empty queue means every level has been searched without meeting a hit. */
  lemma Exhausted<T>(kids: map<T, set<T>>, rank: map<T, nat>, top: nat, hits: set<T>,
                     start: set<T>, levels: seq<set<T>>, done: set<T>)
    requires Searching(kids, rank, top, hits, start, levels, [], [], done)
    ensures forall i :: Level(kids, start, i) !! hits
  {
    var last := |levels| - 1;
    assert done == levels[last] by {
      assert Elems<T>([]) == {};
    }
    var levels' := levels + [{}];
    forall i | 0 <= i < |levels'| - 1
      ensures levels'[i + 1] == Expand(kids, levels'[i])
    {
      if i < last {
        assert levels'[i + 1] == levels[i + 1];
      }
    }
    LevelsAre(kids, start, levels');
    forall i: nat
      ensures Level(kids, start, i) !! hits
    {
      if i <= last {
        assert Level(kids, start, i) == levels[i];
      } else {
        LevelEmpty(kids, start, last + 1, i);
      }
    }
  }
}
