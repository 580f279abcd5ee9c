/** First occurrences in a sequence. */
module Sequences {

  /** Where `x` first occurs. */
  function First<T(==)>(all: seq<T>, x: T): (i: nat)
    requires x in all
    ensures i < |all| && all[i] == x && x !in all[..i]
  {
    if all[0] == x then 0 else
      assert x in all[1..];
      First(all[1..], x) + 1
  }

  /** The elements of `some` come in the order in which `all` first shows them, once each. */
  ghost predicate InFirstOrder<T>(some: seq<T>, all: seq<T>) {
    && (forall x :: x in some ==> x in all)
    && (forall i, j :: 0 <= i < j < |some| ==> First(all, some[i]) < First(all, some[j]))
  }

  lemma {:induction false} FirstAppended<T>(all: seq<T>, more: T, x: T)
    requires x in all + [more]
    ensures First(all + [more], x) == if x in all then First(all, x) else |all|
    decreases |all|
  {
    if all != [] && all[0] != x {
      assert (all + [more])[1..] == all[1..] + [more];
      FirstAppended(all[1..], more, x);
    }
  }

  /** One more element seen: kept at the end if it is new, or passed over. */
  lemma InFirstOrderMore<T>(some: seq<T>, all: seq<T>, x: T)
    requires InFirstOrder(some, all)
    ensures InFirstOrder(some, all + [x])
    ensures x !in all ==> InFirstOrder(some + [x], all + [x])
  {
    hide First;
    forall y | y in all + [x] ensures First(all + [x], y) == if y in all then First(all, y) else |all| {
      FirstAppended(all, x, y);
    }
  }


  lemma InFirstOrderNone<T>(all: seq<T>)
    ensures InFirstOrder([], all)
  {
  }
}
