/** The memoized token counter and the guard that keeps degenerate text from the tokenizer. */
module TiktokenCounter {

  datatype CharClass = Digit | Letter | Space | Symbol

  datatype Counted = Count(tokens: nat) | Refused

  const CACHE_MIN_LEN := 65536
  const CACHE_MAX_BYTES := 67108864
  const ESTIMATE_ABOVE_LEN := 8388608
  const ESTIMATE_SAMPLE_LEN := 1048576
  const MAX_SAFE_RUN := 131072

  // ---------- The run guard ----------

  /** `n` characters of one class, digits exempt, from `i` on. */
  ghost predicate RunAt(classOf: char -> CharClass, text: string, i: nat, n: nat) {
    && i + n <= |text|
    && forall k :: i <= k < i + n ==> classOf(text[k]) == classOf(text[i]) && !classOf(text[k]).Digit?
  }

  ghost predicate HasRun(classOf: char -> CharClass, text: string, n: nat) {
    exists i :: RunAt(classOf, text, i, n)
  }

  /** A run reaches a limit only in its second character, so limits below two act as two. */
  method HasBacktrackingProneRun(classOf: char -> CharClass, text: string, limit: int) returns (r: bool)
    ensures r <==> HasRun(classOf, text, if limit < 2 then 2 else limit)
  {
    ghost var n := if limit < 2 then 2 else limit;
    if |text| < limit {
      return false;
    }
    var run := 0;
    var current := Digit;
    for i := 0 to |text|
      invariant run <= i && run < n && (run == 0 <==> current.Digit?)
      invariant forall k :: i - run <= k < i ==> classOf(text[k]) == current
      invariant run < i ==> classOf(text[i - run - 1]) != current || current.Digit?
      invariant run == 0 && i > 0 ==> classOf(text[i - 1]).Digit?
      invariant forall s: nat :: s + n <= i ==> !RunAt(classOf, text, s, n)
    {
      var cls := classOf(text[i]);
      if cls.Digit? {
        current, run := Digit, 0;
      } else if cls == current {
        run := run + 1;
        if run >= limit {
          assert RunAt(classOf, text, i + 1 - n, n);
          return true;
        }
      } else {
        current, run := cls, 1;
      }
      NoRunEndsHere(classOf, text, i, run, n);
    }
    r := false;
  }

  lemma NoRunEndsHere(classOf: char -> CharClass, text: string, i: nat, run: nat, n: nat)
    requires i < |text| && run <= i + 1 && run < n
    requires run == 0 ==> classOf(text[i]).Digit?
    requires 0 < run <= i ==> classOf(text[i - run]) != classOf(text[i])
    ensures forall s: nat :: s + n == i + 1 ==> !RunAt(classOf, text, s, n)
  {
  }

  /** So a run of one is never seen, though a limit of one asks for it. */
  lemma RunOfOneIsMissed(classOf: char -> CharClass, c: char)
    requires !classOf(c).Digit?
    ensures HasRun(classOf, [c], 1) && !HasRun(classOf, [c], 2)
  {
    assert RunAt(classOf, [c], 0, 1);
  }

  // ---------- Counting ----------

  function Max(a: nat, b: nat): nat {
    if a >= b then a else b
  }

  /** `round(a / b)`: to the nearest integer, a half to the even one. */
  function Rounded(a: nat, b: nat): nat
    requires b > 0
  {
    var low := a / b;
    var twice := 2 * (a % b);
    if twice < b || (twice == b && low % 2 == 0) then low else low + 1
  }

  /** No integer is nearer to the quotient, and of two equally near the even one is taken. */
  lemma RoundedIsNearest(a: nat, b: nat)
    requires b > 0
    ensures var error := 2 * (Rounded(a, b) * b - a);
            0 - b <= error <= b && (Rounded(a, b) % 2 == 1 ==> 0 - b < error < b)
  {
    var low, rest := a / b, a % b;
    assert low * b == a - rest && (low + 1) * b == a - rest + b;
  }

  lemma AtLeastOne(a: nat, b: nat)
    requires 0 < b <= a
    ensures Rounded(a, b) >= 1
  {
    assert a / b >= 1;
  }

  lemma ScaledAtLeast(tokens: nat, length: nat, sample: nat)
    requires 0 < tokens && sample <= length
    ensures sample <= tokens * length
  {
    assert tokens * length == (tokens - 1) * length + length;
  }

  /** The count of a huge text, from a bounded prefix. */
  ghost function Estimate(encoded: string -> nat, classOf: char -> CharClass, text: string): (n: nat)
    requires |text| >= ESTIMATE_ABOVE_LEN
    ensures n >= 1
    ensures var sample := text[..ESTIMATE_SAMPLE_LEN];
            if HasRun(classOf, sample, MAX_SAFE_RUN) then 3 * n <= |text| < 3 * (n + 1)
            else if encoded(sample) == 0 then 4 * n <= |text| < 4 * (n + 1)
            else -|sample| <= 2 * (n * |sample| - encoded(sample) * |text|) <= |sample|
  {
    var sample := text[..ESTIMATE_SAMPLE_LEN];
    if HasRun(classOf, sample, MAX_SAFE_RUN) then Max(1, |text| / 3)
    else if encoded(sample) <= 0 then Max(1, |text| / 4)
    else
      ScaledAtLeast(encoded(sample), |text|, |sample|);
      AtLeastOne(encoded(sample) * |text|, |sample|);
      RoundedIsNearest(encoded(sample) * |text|, |sample|);
      Max(1, Rounded(encoded(sample) * |text|, |sample|))
  }

  /** What counting a text comes to, without any memo. */
  ghost function Answer(encoded: string -> nat, classOf: char -> CharClass, text: string): Counted {
    if text == "" then Count(0)
    else if |text| < CACHE_MIN_LEN then Count(encoded(text))
    else if |text| >= ESTIMATE_ABOVE_LEN then Count(Estimate(encoded, classOf, text))
    else if HasRun(classOf, text, MAX_SAFE_RUN) then Refused
    else Count(encoded(text))
  }

  function TotalLength(keys: seq<string>): nat {
    if keys == [] then 0 else |keys[0]| + TotalLength(keys[1..])
  }

  lemma {:induction false} TotalLengthAppend(keys: seq<string>, key: string)
    ensures TotalLength(keys + [key]) == TotalLength(keys) + |key|
  {
    if keys == [] {
      assert (keys + [key])[1..] == [];
    } else {
      assert (keys + [key])[1..] == keys[1..] + [key];
      TotalLengthAppend(keys[1..], key);
    }
  }

  /** The keys the memo keeps: the oldest go, one by one, while over the cap and not alone. */
  function Capped(keys: seq<string>): seq<string> {
    if TotalLength(keys) > CACHE_MAX_BYTES && |keys| > 1 then Capped(keys[1..]) else keys
  }

  /** A cap never gives up the newest key, and gives up none it need not. */
  lemma {:induction false} CappedIsTheLongestFit(keys: seq<string>)
    requires keys != []
    ensures var kept := Capped(keys);
            var n := |keys| - |kept|;
            && 0 <= n < |keys| && kept == keys[n..]
            && (TotalLength(kept) <= 67108864 || |kept| == 1)
            && forall m :: 0 <= m < n ==> TotalLength(keys[m..]) > 67108864
  {
    if TotalLength(keys) > CACHE_MAX_BYTES && |keys| > 1 {
      CappedIsTheLongestFit(keys[1..]);
      var kept := Capped(keys);
      var n := |keys| - |kept|;
      assert keys[1..][n - 1..] == keys[n..];
      forall m | 0 <= m < n ensures TotalLength(keys[m..]) > CACHE_MAX_BYTES {
        if m == 0 {
          assert keys[0..] == keys;
        } else {
          assert keys[1..][m - 1..] == keys[m..];
        }
      }
    }
  }

  ghost predicate Distinct(keys: seq<string>) {
    forall i, j :: 0 <= i < j < |keys| ==> keys[i] != keys[j]
  }

  lemma DistinctAppend(keys: seq<string>, key: string)
    requires Distinct(keys) && key !in keys
    ensures Distinct(keys + [key])
  {
  }

  lemma DropOldest(keys: seq<string>)
    requires keys != [] && Distinct(keys)
    ensures Distinct(keys[1..]) && forall k :: k in keys[1..] <==> k in keys && k != keys[0]
    ensures TotalLength(keys) == |keys[0]| + TotalLength(keys[1..])
    ensures TotalLength(keys) > CACHE_MAX_BYTES && |keys| > 1 ==> Capped(keys) == Capped(keys[1..])
  {
    hide TotalLength;
    TotalLengthFirst(keys);
  }

  lemma TotalLengthFirst(keys: seq<string>)
    requires keys != []
    ensures TotalLength(keys) == |keys[0]| + TotalLength(keys[1..])
  {
  }

  lemma CappedStops(keys: seq<string>)
    ensures !(TotalLength(keys) > CACHE_MAX_BYTES && |keys| > 1) ==> Capped(keys) == keys
  {
  }

  class Counter {
    const encoded: string -> nat
    const classOf: char -> CharClass
    /** The memo's keys, oldest first, and its counts. */
    var keys: seq<string>
    var counts: map<string, nat>
    var bytes: int

    ghost predicate Valid()
      reads this
    {
      && Distinct(keys) && (forall k :: k in counts <==> k in keys)
      && bytes == TotalLength(keys) && (bytes <= CACHE_MAX_BYTES || |keys| == 1)
      && forall k :: k in counts ==> |k| >= CACHE_MIN_LEN && Answer(encoded, classOf, k) == Count(counts[k])
    }

    constructor (encoded: string -> nat, classOf: char -> CharClass)
      ensures Valid() && keys == [] && this.encoded == encoded && this.classOf == classOf
    {
      this.encoded, this.classOf := encoded, classOf;
      keys, counts, bytes := [], map[], 0;
    }

    method EstimateHuge(text: string) returns (n: nat)
      requires |text| >= ESTIMATE_ABOVE_LEN
      ensures n == Estimate(encoded, classOf, text)
    {
      var sample := text[..ESTIMATE_SAMPLE_LEN];
      var prone := HasBacktrackingProneRun(classOf, sample, MAX_SAFE_RUN);
      if prone {
        return Max(1, |text| / 3);
      }
      var sampleTokens := encoded(sample);
      if sampleTokens <= 0 {
        return Max(1, |text| / 4);
      }
      n := Max(1, Rounded(sampleTokens * |text|, |sample|));
    }

    /** A text below 8 MiB has its exact count, memo or no memo, and is refused exactly when it is not
        short and holds a run of 128 KiB; a larger one has an estimate from its first MiB. The memo
        keeps the newest texts that fit. */
    method CountText(text: string) returns (r: Counted)
      requires Valid()
      modifies this
      ensures Valid() && r == Answer(encoded, classOf, text)
      ensures r.Refused? <==> 65536 <= |text| < 8388608 && HasRun(classOf, text, 131072)
      ensures r.Count? && |text| < 8388608 ==> r.tokens == if text == "" then 0 else encoded(text)
      ensures |text| >= 8388608 ==>
                var sample := text[..1048576];
                && r.Count? && r.tokens >= 1
                && if HasRun(classOf, sample, 131072) then 3 * r.tokens <= |text| < 3 * (r.tokens + 1)
                   else if encoded(sample) == 0 then 4 * r.tokens <= |text| < 4 * (r.tokens + 1)
                   else -1048576 <= 2 * (r.tokens * 1048576 - encoded(sample) * |text|) <= 1048576
      ensures keys == if |text| < CACHE_MIN_LEN || r.Refused? || text in old(keys) then old(keys)
                      else Capped(old(keys) + [text])
    {
      if text == "" {
        return Count(0);
      }
      if |text| < CACHE_MIN_LEN {
        return Count(encoded(text));
      }
      if text in counts {
        return Count(counts[text]);
      }
      var n;
      if |text| >= ESTIMATE_ABOVE_LEN {
        n := EstimateHuge(text);
      } else {
        var prone := HasBacktrackingProneRun(classOf, text, MAX_SAFE_RUN);
        if prone {
          return Refused;
        }
        n := encoded(text);
      }
      Memoize(text, n);
      r := Count(n);
    }

    /** Adds a count, then drops the oldest while over the cap. */
    method Memoize(text: string, n: nat)
      requires Valid() && text !in counts && |text| >= CACHE_MIN_LEN && Answer(encoded, classOf, text) == Count(n)
      modifies this
      ensures Valid() && keys == Capped(old(keys) + [text])
    {
      hide Answer, Capped, TotalLength, Distinct;
      TotalLengthAppend(keys, text);
      DistinctAppend(keys, text);
      keys, counts, bytes := keys + [text], counts[text := n], bytes + |text|;
      while bytes > CACHE_MAX_BYTES && |keys| > 1
        invariant keys != [] && Distinct(keys) && (forall k :: k in counts <==> k in keys) && bytes == TotalLength(keys)
        invariant Capped(keys) == Capped(old(keys) + [text])
        invariant forall k :: k in counts ==> |k| >= CACHE_MIN_LEN && Answer(encoded, classOf, k) == Count(counts[k])
      {
        var oldest := keys[0];
        DropOldest(keys);
        keys, counts, bytes := keys[1..], counts - {oldest}, bytes - |oldest|;
      }
      CappedStops(keys);
    }
  }
}
