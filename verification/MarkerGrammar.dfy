/** The double-angle marker family `<<ccr:HASH...>>`: what the extraction pattern and the
    substitution pattern match, and what a substitution pass makes of a text. */
module MarkerGrammar {
  import opened Sequences
  import opened Wrappers

  const PREFIX := "<<ccr:"

  /** The longest tail between the hash and the closing `>>`. */
  const TAIL_LIMIT := 64

  predicate IsHex(c: char) {
    'a' <= c <= 'f' || '0' <= c <= '9'
  }

  /** `s` begins with at least `n` lowercase hex digits. */
  predicate HexRun(s: string, n: nat) {
    n <= |s| && forall i :: 0 <= i < n ==> IsHex(s[i])
  }

  predicate IsDelimiter(c: char) {
    c == ' ' || c == ',' || c == '#' || c == '>'
  }

  /** The two character classes of the patterns, spelled out. */
  lemma ClassesExactly(c: char)
    ensures IsHex(c) <==> c in "0123456789abcdef"
    ensures IsDelimiter(c) <==> c in " ,#>"
  {
    var digits := "0123456789abcdef";
    if '0' <= c <= '9' {
      assert digits[c as int - '0' as int] == c;
    } else if 'a' <= c <= 'f' {
      assert digits[c as int - 'a' as int + 10] == c;
    }
  }

  /** `[^>]{0,64}>>` here: the length of the tail it takes. The tail runs to the first `>`, so
      there is only one way to match. */
  function Tail(s: string, limit: nat): Option<nat> {
    if s == "" then None
    else if s[0] == '>' then (if |s| > 1 && s[1] == '>' then Some(0) else None)
    else if limit == 0 then None
    else match Tail(s[1..], limit - 1)
         case None => None
         case Some(n) => Some(n + 1)
  }

  datatype Pattern = DoubleAngle | DoubleAngleFull

  /** What follows a hash of the pattern's choice: how many more characters the match takes. */
  function AfterHash(p: Pattern, s: string): Option<nat> {
    match p
    case DoubleAngle => if s != "" && IsDelimiter(s[0]) then Some(1) else None
    case DoubleAngleFull =>
      match Tail(s, TAIL_LIMIT)
      case None => None
      case Some(n) => Some(n + 2)
  }

  /** A match starting right here: its length and its hash. The 24-digit reading is tried first. */
  function MatchHere(p: Pattern, s: string): (r: Option<(nat, string)>)
    ensures r.Some? ==> PREFIX <= s && |PREFIX| < r.value.0 <= |s|
  {
    if !(PREFIX <= s) then None
    else
      var rest := s[|PREFIX|..];
      if HexRun(rest, 24) && AfterHash(p, rest[24..]).Some? then
        TailFits(rest[24..], TAIL_LIMIT);
        Some((|PREFIX| + 24 + AfterHash(p, rest[24..]).value, rest[..24]))
      else if HexRun(rest, 12) && AfterHash(p, rest[12..]).Some? then
        TailFits(rest[12..], TAIL_LIMIT);
        Some((|PREFIX| + 12 + AfterHash(p, rest[12..]).value, rest[..12]))
      else None
  }

  lemma {:induction false} TailFits(s: string, limit: nat)
    ensures Tail(s, limit).Some? ==> Tail(s, limit).value + 2 <= |s| && Tail(s, limit).value <= limit
  {
    if s != "" && s[0] != '>' && limit > 0 {
      TailFits(s[1..], limit - 1);
    }
  }

  datatype Match = Match(start: nat, end: nat, hash: string)

  /** `finditer` over `s`, whose first character is at position `at`. */
  function FindAll(p: Pattern, s: string, at: nat): seq<Match>
    decreases |s|
  {
    if s == "" then []
    else
      match MatchHere(p, s)
      case Some((length, hash)) => [Match(at, at + length, hash)] + FindAll(p, s[length..], at + length)
      case None => FindAll(p, s[1..], at + 1)
  }

  // ---------- Substitution and extraction ----------

  /** `s` with the matches spliced out and their replacements spliced in. */
  function Spliced(text: string, matches: seq<Match>, lookup: string -> Option<string>, last: nat): string
    requires InOrder(matches, last, |text|)
  {
    if matches == [] then text[last..]
    else
      var m := matches[0];
      text[last..m.start]
      + (match lookup(m.hash) case Some(original) => original case None => text[m.start..m.end])
      + Spliced(text, matches[1..], lookup, m.end)
  }

  predicate InOrder(matches: seq<Match>, last: nat, length: nat) {
    if matches == [] then last <= length
    else last <= matches[0].start <= matches[0].end <= length && InOrder(matches[1..], matches[0].end, length)
  }

  /** The stored original, or the marker itself on a miss. */
  function Replaced(marker: string, stored: Option<string>): (r: string)
    ensures stored.Some? ==> r == stored.value
    ensures stored.None? ==> r == marker
  {
    if stored.Some? then stored.value else marker
  }

  lemma {:induction false} FindAllInOrder(p: Pattern, s: string, at: nat)
    ensures InOrder(FindAll(p, s, at), at, at + |s|)
    decreases |s|
  {
    if s != "" {
      match MatchHere(p, s) {
        case Some((length, hash)) =>
          FindAllInOrder(p, s[length..], at + length);
        case None =>
          FindAllInOrder(p, s[1..], at + 1);
          InOrderEarlier(FindAll(p, s[1..], at + 1), at + 1, at, at + |s|);
      }
    }
  }

  lemma InOrderEarlier(matches: seq<Match>, last: nat, earlier: nat, length: nat)
    requires InOrder(matches, last, length) && earlier <= last
    ensures InOrder(matches, earlier, length)
  {
  }

  function Concat(parts: seq<string>): string {
    if parts == [] then "" else parts[0] + Concat(parts[1..])
  }

  lemma {:induction false} ConcatAppend(parts: seq<string>, last: string)
    ensures Concat(parts + [last]) == Concat(parts) + last
  {
    if parts == [] {
      assert Concat([last]) == last + Concat([]);
    } else {
      assert (parts + [last])[1..] == parts[1..] + [last];
      ConcatAppend(parts[1..], last);
    }
  }

  lemma SplicedNext(text: string, matches: seq<Match>, lookup: string -> Option<string>, last: nat)
    requires InOrder(matches, last, |text|) && matches != []
    ensures last <= matches[0].start <= matches[0].end <= |text| && InOrder(matches[1..], matches[0].end, |text|)
    ensures var m := matches[0];
            Spliced(text, matches, lookup, last) ==
              text[last..m.start]
              + (match lookup(m.hash) case Some(original) => original case None => text[m.start..m.end])
              + Spliced(text, matches[1..], lookup, m.end)
  {
  }

  lemma SplicedDone(text: string, lookup: string -> Option<string>, last: nat)
    requires last <= |text|
    ensures InOrder([], last, |text|) && Spliced(text, [], lookup, last) == text[last..]
  {
  }

  lemma InOrderBound(matches: seq<Match>, last: nat, length: nat)
    requires InOrder(matches, last, length)
    ensures last <= length
  {
  }

  /** The text with every match replaced, left to right. */
  method SubWithinBudget(p: Pattern, lookup: string -> Option<string>, text: string) returns (r: string)
    ensures InOrder(FindAll(p, text, 0), 0, |text|)
    ensures r == Spliced(text, FindAll(p, text, 0), lookup, 0)
  {
    hide *;
    FindAllInOrder(p, text, 0);
    var matches := FindAll(p, text, 0);
    var parts: seq<string> := [];
    var last: nat := 0;
    assert matches[0..] == matches;
    ConcatNone();
    for i := 0 to |matches|
      invariant InOrder(matches[i..], last, |text|)
      invariant Concat(parts) + Spliced(text, matches[i..], lookup, last) == Spliced(text, matches, lookup, 0)
    {
      var m := matches[i];
      assert matches[i..][1..] == matches[i + 1..] && matches[i..][0] == m;
      SplicedNext(text, matches[i..], lookup, last);
      var kept, replacement := text[last..m.start], Replaced(text[m.start..m.end], lookup(m.hash));
      ConcatTwo(parts, kept, replacement, Spliced(text, matches[i + 1..], lookup, m.end));
      parts := parts + [kept];
      parts := parts + [replacement];
      last := m.end;
    }
    assert matches[|matches|..] == [];
    InOrderBound(matches[|matches|..], last, |text|);
    SplicedDone(text, lookup, last);
    ConcatAppend(parts, text[last..]);
    parts := parts + [text[last..]];
    r := Concat(parts);
  }

  lemma ConcatNone()
    ensures Concat([]) == ""
  {
  }

  lemma ConcatTwo(parts: seq<string>, a: string, b: string, rest: string)
    ensures Concat(parts + [a] + [b]) + rest == Concat(parts) + (a + b + rest)
  {
    ConcatAppend(parts, a);
    ConcatAppend(parts + [a], b);
  }

  function HashesOf(matches: seq<Match>): seq<string> {
    if matches == [] then [] else [matches[0].hash] + HashesOf(matches[1..])
  }

  /** Each hash once, in the order they were first seen. */
  ghost predicate FirstSeen(seen: seq<string>, all: seq<string>) {
    (forall h :: h in all ==> h in seen) && InFirstOrder(seen, all)
  }

  lemma {:induction false} HashesAt(matches: seq<Match>)
    ensures |HashesOf(matches)| == |matches|
    ensures forall i :: 0 <= i < |matches| ==> HashesOf(matches)[i] == matches[i].hash
  {
    if matches != [] {
      HashesAt(matches[1..]);
    }
  }

  /** The extraction scan's hashes, in first-seen order. */
  method HashesInText(text: string) returns (seen: seq<string>)
    ensures FirstSeen(seen, HashesOf(FindAll(DoubleAngle, text, 0)))
  {
    hide FindAll, HashesOf, FirstSeen;
    var matches := FindAll(DoubleAngle, text, 0);
    ghost var all := HashesOf(matches);
    HashesAt(matches);
    seen := [];
    FirstSeenNone();
    for i := 0 to |matches|
      invariant FirstSeen(seen, all[..i])
    {
      FirstSeenMore(seen, all[..i], matches[i].hash);
      assert all[..i + 1] == all[..i] + [matches[i].hash];
      if matches[i].hash !in seen {
        seen := seen + [matches[i].hash];
      }
    }
    assert all[..|matches|] == all;
  }

  lemma FirstSeenNone()
    ensures FirstSeen([], [])
  {
  }

  lemma FirstSeenMore(seen: seq<string>, all: seq<string>, h: string)
    requires FirstSeen(seen, all)
    ensures FirstSeen(if h in seen then seen else seen + [h], all + [h])
  {
    hide InFirstOrder;
    InFirstOrderMore(seen, all, h);
    KeptOfAll(seen, all);
  }

  lemma KeptOfAll(seen: seq<string>, all: seq<string>)
    requires InFirstOrder(seen, all)
    ensures forall h :: h in seen ==> h in all
  {
  }
}
