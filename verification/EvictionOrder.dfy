/** The order in which the store evicts: tuples of creation time and hash key, compared
    the way Python compares them, and the bag of such tuples that `heapq` keeps. */
module EvictionOrder {

  /** Python's `<` on strings: code point by code point, a proper prefix is smaller. */
  predicate LexLess(a: string, b: string) {
    b != "" && (a == "" || a[0] < b[0] || (a[0] == b[0] && LexLess(a[1..], b[1..])))
  }

  lemma {:induction false} LexTransitive(a: string, b: string, c: string)
    requires LexLess(a, b) && LexLess(b, c)
    ensures LexLess(a, c)
  {
    if a != "" && a[0] == b[0] && b[0] == c[0] {
      LexTransitive(a[1..], b[1..], c[1..]);
    }
  }

  lemma {:induction false} LexTotal(a: string, b: string)
    ensures a == b || LexLess(a, b) || LexLess(b, a)
    ensures !(LexLess(a, b) && LexLess(b, a)) && !LexLess(a, a)
  {
    if a != "" && b != "" {
      LexTotal(a[1..], b[1..]);
      assert a == [a[0]] + a[1..] && b == [b[0]] + b[1..];
    }
    if a != "" {
      LexTotal(a[1..], a[1..]);
    }
  }

  /** The order decides at the first place where the two differ, or by length when there is none. */
  lemma {:induction false} LexLessExactly(a: string, b: string)
    ensures LexLess(a, b) <==> exists n: nat :: DiffersAt(a, b, n)
  {
    if a == "" {
      assert b != "" ==> DiffersAt(a, b, 0);
    } else if b != "" {
      LexLessExactly(a[1..], b[1..]);
      if a[0] < b[0] {
        assert DiffersAt(a, b, 0);
      }
      if a[0] == b[0] && LexLess(a[1..], b[1..]) {
        var n: nat :| DiffersAt(a[1..], b[1..], n);
        assert a[..n + 1] == [a[0]] + a[1..][..n] && b[..n + 1] == [b[0]] + b[1..][..n];
        assert DiffersAt(a, b, n + 1);
      }
      if n: nat :| DiffersAt(a, b, n) && n > 0 {
        assert a[..n][0] == a[0] && b[..n][0] == b[0];
        assert a[1..][..n - 1] == a[..n][1..] && b[1..][..n - 1] == b[..n][1..];
        assert DiffersAt(a[1..], b[1..], n - 1);
      }
    }
  }

  predicate DiffersAt(a: string, b: string, n: nat) {
    n <= |a| && n < |b| && a[..n] == b[..n] && (n == |a| || a[n] < b[n])
  }

  /** A heap tuple `(created_at, hash_key)`. */
  datatype Tick = Tick(at: real, key: string)

  predicate Before(a: Tick, b: Tick) {
    a.at < b.at || (a.at == b.at && LexLess(a.key, b.key))
  }

  lemma BeforeTransitive(a: Tick, b: Tick, c: Tick)
    requires Before(a, b) && Before(b, c)
    ensures Before(a, c)
  {
    if a.at == b.at == c.at {
      LexTransitive(a.key, b.key, c.key);
    }
  }

  lemma BeforeTotal(a: Tick, b: Tick)
    ensures a == b || Before(a, b) || Before(b, a)
    ensures !(Before(a, b) && Before(b, a)) && !Before(a, a)
  {
    LexTotal(a.key, b.key);
  }

  predicate IsFirst(t: Tick, heap: multiset<Tick>) {
    t in heap && forall u :: u in heap && u != t ==> Before(t, u)
  }

  lemma {:induction false} FirstExists(heap: multiset<Tick>)
    requires heap != multiset{}
    ensures exists t :: IsFirst(t, heap)
    decreases |heap|
  {
    var x :| x in heap;
    var rest := heap - multiset{x};
    assert forall u :: u in heap && u != x ==> u in rest;
    if rest == multiset{} {
      assert IsFirst(x, heap);
    } else {
      FirstExists(rest);
      var m :| IsFirst(m, rest);
      BeforeTotal(x, m);
      var t := if Before(x, m) then x else m;
      forall u | u in heap && u != t ensures Before(t, u) {
        if Before(x, m) && u != m {
          BeforeTransitive(x, m, u);
        }
      }
      assert IsFirst(t, heap);
    }
  }

  /** `heapq.heappop`: takes out one occurrence of the least tuple. */
  method HeapPop(heap: multiset<Tick>) returns (t: Tick, rest: multiset<Tick>)
    requires heap != multiset{}
    ensures IsFirst(t, heap)
    ensures rest == heap - multiset{t} && |rest| == |heap| - 1
  {
    FirstExists(heap);
    t :| IsFirst(t, heap);
    rest := heap - multiset{t};
  }
}
