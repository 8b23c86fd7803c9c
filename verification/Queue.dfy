/**
 The hand-over of calls and messages between threads: a list under a mutex and a
 semaphore that counts it. Producers attach, then post; consumers wait, then remove.
 */
module Queue {
  import opened CText

  /** The list and the semaphore, the threads that have attached but not yet posted,
      those that have waited but not yet removed, and everything put in and taken out. */
  datatype Line<T> = Line(list: seq<T>, sem: nat, attached: set<nat>, waited: set<nat>, put: seq<T>, taken: seq<T>)

  datatype Move<T> = Attach(thread: nat, item: T) | Post(thread: nat) | Wait(thread: nat) | Remove(thread: nat)

  predicate Ready<T(==)>(q: Line<T>, a: Move<T>) {
    match a
    case Attach(t, _) => t !in q.attached
    case Post(t) => t in q.attached
    case Wait(t) => t !in q.waited && q.sem > 0
    case Remove(t) => t in q.waited
  }

  /** The item dlist_get finds at position 0. */
  function Head<T>(q: Line<T>): Option<T> { if q.list == [] then None else Some(q.list[0]) }

  function After<T>(q: Line<T>, a: Move<T>): Line<T>
    requires Ready(q, a)
  {
    match a
    case Attach(t, x) => q.(list := q.list + [x], attached := q.attached + {t}, put := q.put + [x])
    case Post(t) => q.(sem := q.sem + 1, attached := q.attached - {t})
    case Wait(t) => q.(sem := q.sem - 1, waited := q.waited + {t})
    case Remove(t) =>
      match Head(q)
      case None => q.(waited := q.waited - {t})
      case Some(x) => q.(list := q.list[1..], waited := q.waited - {t}, taken := q.taken + [x])
  }

  function Fresh<T>(): Line<T> { Line([], 0, {}, {}, [], []) }

  predicate Possible<T(==)>(q: Line<T>, moves: seq<Move<T>>)
    decreases |moves|
  {
    moves == [] || (Ready(q, moves[0]) && Possible(After(q, moves[0]), moves[1..]))
  }

  /** The state after any interleaving of the threads. */
  function Run<T>(q: Line<T>, moves: seq<Move<T>>): Line<T>
    requires Possible(q, moves)
    decreases |moves|
  {
    if moves == [] then q else Run(After(q, moves[0]), moves[1..])
  }

  /** The list is as long as the semaphore says, plus what is attached but not posted,
      plus what has been waited for but not removed; and it is what was put in and not
      yet taken, in that order. */
  predicate Balanced<T(==)>(q: Line<T>) {
    && |q.list| == q.sem + |q.attached| + |q.waited|
    && q.put == q.taken + q.list
  }

  lemma AttachKeeps<T>(q: Line<T>, thread: nat, item: T)
    requires Balanced(q) && thread !in q.attached
    ensures Balanced(After(q, Attach(thread, item)))
  {
    assert q.taken + (q.list + [item]) == q.taken + q.list + [item];
  }

  lemma RemoveKeeps<T>(q: Line<T>, thread: nat)
    requires Balanced(q) && thread in q.waited
    ensures Head(q) != None && Balanced(After(q, Remove(thread)))
  {
    assert q.waited == (q.waited - {thread}) + {thread};
    assert q.taken + ([q.list[0]] + q.list[1..]) == q.taken + [q.list[0]] + q.list[1..];
  }

  lemma MoveKeeps<T>(q: Line<T>, a: Move<T>)
    requires Balanced(q) && Ready(q, a)
    ensures Balanced(After(q, a))
    ensures a.Remove? ==> Head(q) != None
  {
    match a {
      case Attach(t, x) => AttachKeeps(q, t, x);
      case Post(t) => assert q.attached == (q.attached - {t}) + {t};
      case Wait(t) =>
      case Remove(t) => RemoveKeeps(q, t);
    }
  }

  /** In every run the list balances. */
  lemma {:induction false} RunBalanced<T>(q: Line<T>, moves: seq<Move<T>>)
    requires Balanced(q) && Possible(q, moves)
    ensures Balanced(Run(q, moves))
    decreases |moves|
  {
    if moves != [] {
      MoveKeeps(q, moves[0]);
      RunBalanced(After(q, moves[0]), moves[1..]);
    }
  }

  /** A consumer past its sem_wait never finds the list empty, under any interleaving,
      and what it removes is the oldest item not yet taken: the branches for an empty
      list cannot be reached, and items leave in the order they came. */
  lemma PullNeverEmpty<T>(moves: seq<Move<T>>, thread: nat)
    requires Possible(Fresh<T>(), moves) && thread in Run(Fresh<T>(), moves).waited
    ensures var q := Run(Fresh<T>(), moves);
      && Head(q) != None && |q.taken| < |q.put| && Head(q).value == q.put[|q.taken|]
      && After(q, Remove(thread)).taken == q.put[..|q.taken| + 1]
  {
    var q := Run(Fresh<T>(), moves);
    RunBalanced(Fresh<T>(), moves);
    MoveKeeps(q, Remove(thread));
    assert q.put[..|q.taken| + 1] == q.taken + [q.list[0]];
  }

  /** The same with the fields as the threads see them; the sets of threads and the
      items put and taken are kept for the proof only. */
  class Channel<T(==)> {
    var list: seq<T>
    var sem: nat
    ghost var attached: set<nat>
    ghost var waited: set<nat>
    ghost var put: seq<T>
    ghost var taken: seq<T>

    constructor ()
      ensures State() == Fresh()
    {
      list, sem, attached, waited, put, taken := [], 0, {}, {}, [], [];
    }

    ghost function State(): Line<T>
      reads this
    {
      Line(list, sem, attached, waited, put, taken)
    }

    /** The locked part of a push. */
    method Attach(ghost thread: nat, item: T)
      requires Ready(State(), Move.Attach(thread, item))
      modifies this
      ensures State() == After(old(State()), Move.Attach(thread, item))
    {
      list := list + [item];
      attached, put := attached + {thread}, put + [item];
    }

    /** sem_post. */
    method Post(ghost thread: nat)
      requires Ready(State(), Move.Post(thread))
      modifies this
      ensures State() == After(old(State()), Move.Post(thread))
    {
      sem := sem + 1;
      attached := attached - {thread};
    }

    /** sem_wait, once it returns. */
    method Wait(ghost thread: nat)
      requires Ready(State(), Move.Wait(thread))
      modifies this
      ensures State() == After(old(State()), Move.Wait(thread))
    {
      sem := sem - 1;
      waited := waited + {thread};
    }

    /** The locked part of a pull. The branch that would leave the mutex locked, or the
        result unset, is not reached. */
    method Remove(ghost thread: nat) returns (item: T)
      requires Balanced(State()) && Ready(State(), Move.Remove(thread))
      modifies this
      ensures State() == After(old(State()), Move.Remove(thread)) && Some(item) == Head(old(State()))
    {
      MoveKeeps(State(), Move.Remove(thread));
      item := list[0];
      list := list[1..];
      waited, taken := waited - {thread}, taken + [item];
    }
  }
}
