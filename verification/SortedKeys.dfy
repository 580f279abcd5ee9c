/** Python's `sorted` over a set of names. */
module SortedKeys {
  import opened EvictionOrder

  ghost predicate Ascending(names: seq<string>) {
    forall i, j :: 0 <= i < j < |names| ==> LexLess(names[i], names[j])
  }

  predicate IsLeast(n: string, names: set<string>) {
    n in names && forall m :: m in names && m != n ==> LexLess(n, m)
  }

  lemma {:induction false} LeastExists(names: set<string>)
    requires names != {}
    ensures exists n :: IsLeast(n, names)
  {
    var x :| x in names;
    var rest := names - {x};
    if rest == {} {
      assert names == {x};
      assert IsLeast(x, names);
    } else {
      LeastExists(rest);
      var n :| IsLeast(n, rest);
      LexTotal(x, n);
      var least := if LexLess(x, n) then x else n;
      forall m | m in names && m != least ensures LexLess(least, m) {
        assert m == x || m in rest;
        if LexLess(x, n) && m != n {
          LexTransitive(x, n, m);
        }
      }
      assert IsLeast(least, names);
    }
  }

  lemma LeastIsUnique(a: string, b: string, names: set<string>)
    requires IsLeast(a, names) && IsLeast(b, names)
    ensures a == b
  {
    LexTotal(a, b);
  }

  method Sorted(names: set<string>) returns (r: seq<string>)
    ensures Ascending(r) && forall n :: n in r <==> n in names
  {
    r := [];
    var rest := names;
    while rest != {}
      invariant Ascending(r) && rest <= names
      invariant forall n :: n in r <==> n in names - rest
      invariant forall n, m :: n in r && m in rest ==> LexLess(n, m)
      decreases |rest|
    {
      LeastExists(rest);
      var n :| n in rest && IsLeast(n, rest);
      r, rest := r + [n], rest - {n};
    }
  }

  /** Taking the names in order takes the least of what is left. */
  lemma AscendingTail(names: seq<string>, i: nat)
    requires Ascending(names) && i < |names|
    ensures forall n :: n in names[i + 1..] <==> n in names[i..] && n != names[i]
    ensures forall n :: n in names[i..] && n != names[i] ==> LexLess(names[i], n)
  {
    forall n | n in names[i + 1..] ensures n != names[i] && LexLess(names[i], n) {
      var j :| i < j < |names| && names[j] == n;
      LexTotal(names[i], n);
    }
  }
}
